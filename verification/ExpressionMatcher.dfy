/** The bracket matchers of build-support/cpplint.py: forward and backward, first
    within a line, then over a whole file, together with `_GetTextInside`. They also
    track `<` and `>` heuristically; the contracts show that this never changes the
    answer for `()[]{}`.
 */
module ExpressionMatcher {
  import opened Basics
  import opened BracketText
  import opened AngleBrackets

  // ---- The expression stack ----

  /** `while stack and stack[-1] == mark: stack.pop()` */
  method PopPending(stack: string, mark: char) returns (r: string)
    requires !IsBracket(mark)
    ensures r <= stack && Strip(r) == Strip(stack)
    ensures r != [] ==> Last(r) != mark
    ensures forall m :: |r| <= m < |stack| ==> stack[m] == mark
  {
    r := stack;
    while r != [] && Last(r) == mark
      invariant r <= stack && Strip(r) == Strip(stack)
      invariant forall m :: |r| <= m < |stack| ==> stack[m] == mark
    {
      r := Front(r);
    }
  }

  lemma {:induction false} RunNext(base: string, line: string, a: nat, i: nat)
    requires a <= i < |line|
    ensures Run(base, line[a..i + 1]) ==
            if Run(base, line[a..i]).Some? then Run(Run(base, line[a..i]).value, [line[i]]) else None
  {
    assert line[a..i + 1] == line[a..i] + [line[i]];
    RunSplit(base, line[a..i], [line[i]]);
  }

  lemma {:induction false} RunOne(st: string, c: char)
    ensures Run(st, [c]) ==
            if IsOpener(c) then Some(st + [c])
            else if IsCloser(c) then
              if st != [] && Pairs(Last(st), c) then Some(Front(st)) else None
            else Some(st)
  {
    assert [c][1..] == [];
  }

  // ---- Forward ----

  predicate ForwardStack(stack: string) {
    forall c :: c in stack ==> IsOpener(c) || c == '<'
  }

  /** What the scan within one line has to report about the bracket scan. */
  predicate Reports(o: Outcome, start: nat, pos: int, rest: Option<string>) {
    match o
    case Found(n) => pos == start + n && rest.None?
    case Stuck => pos == -1 && rest.None?
    case Open(st) => pos == -1 && rest.Some? && Strip(rest.value) == st && Anchored(rest.value)
  }

  /** What FindEndOfExpressionInLine promises. On an anchored stack, or from a
      bracket, it reports exactly what a scan of the brackets alone reports. In any
      case the brackets it passed over fit the stack, and all of them do so when it
      reports an end. */
  ghost predicate LineVerdict(line: string, start: nat, stack: string, pos: int, rest: Option<string>) {
    && (pos == -1 || (start < pos <= |line| && rest.None?))
    && (pos != -1 ==>
          && Run(Strip(stack), line[start..pos]) == Some([])
          && (line[pos - 1] == '>' || IsCloser(line[pos - 1])))
    && (rest.Some? ==> ForwardStack(rest.value))
    && (start <= |line| ==>
          && (rest.Some? ==> Run(Strip(stack), line[start..]) == Some(Strip(rest.value)))
          && (ForwardAnchored(line, start, stack) ==>
                Reports(Find(Strip(stack), line[start..]), start, pos, rest)))
  }

  /** The scan so far, at position `i` with stack `st`. */
  ghost predicate Scanned(base: string, anchored: bool, line: string, start: nat, i: nat, st: string)
    requires start <= i <= |line|
  {
    && ForwardStack(st)
    && Run(base, line[start..i]) == Some(Strip(st))
    && (anchored ==> Anchored(st) || (st == [] && i == start && i < |line| && IsOpener(line[i])))
    && (anchored ==> Find(base, line[start..]) == Later(Find(Strip(st), line[i..]), i - start))
  }

  lemma {:induction false} ScannedPush(base: string, anchored: bool, line: string, start: nat, i: nat, st: string)
    requires start <= i < |line| && IsOpener(line[i])
    requires Scanned(base, anchored, line, start, i, st)
    ensures Scanned(base, anchored, line, start, i + 1, st + [line[i]])
  {
    StripPush(st, line[i]);
    RunNext(base, line, start, i);
    RunOne(Strip(st), line[i]);
    assert line[i..][1..] == line[i + 1..];
  }

  lemma {:induction false} StripPop(st: string)
    requires st != [] && IsBracket(Last(st))
    ensures Strip(st) != [] && Front(Strip(st)) == Strip(Front(st)) && Last(Strip(st)) == Last(st)
    ensures Anchored(st) && Front(st) != [] ==> Anchored(Front(st)) && Strip(Front(st)) != []
  {
    if Anchored(st) && Front(st) != [] { StripNotEmpty(Front(st)); }
  }

  lemma {:induction false} FindPop(st: string, s: string)
    requires st != [] && s != [] && Pairs(Last(st), s[0])
    ensures Find(st, s) == if Front(st) == [] then Found(1) else Later(Find(Front(st), s[1..]), 1)
  {
  }

  lemma {:induction false} RunPop(base: string, line: string, start: nat, i: nat, st: string)
    requires start <= i < |line| && st != [] && Pairs(Last(st), line[i])
    requires Run(base, line[start..i]) == Some(Strip(st))
    ensures Run(base, line[start..i + 1]) == Some(Strip(Front(st)))
  {
    StripPop(st);
    RunNext(base, line, start, i);
    RunOne(Strip(st), line[i]);
  }

  lemma {:induction false} ScannedPop(base: string, anchored: bool, line: string, start: nat, i: nat, st: string)
    requires start <= i < |line| && st != [] && Pairs(Last(st), line[i])
    requires Scanned(base, anchored, line, start, i, st)
    ensures Run(base, line[start..i + 1]) == Some(Strip(Front(st)))
    ensures Front(st) != [] ==> Scanned(base, anchored, line, start, i + 1, Front(st))
    ensures Front(st) == [] && anchored ==> Find(base, line[start..]) == Found(i + 1 - start)
  {
    RunPop(base, line, start, i, st);
    if anchored {
      StripPop(st);
      FindPop(Strip(st), line[i..]);
      assert line[i..][1..] == line[i + 1..];
    }
  }

  lemma {:induction false} ScannedSkip(
    base: string, anchored: bool, line: string, start: nat, i: nat, st: string, st': string)
    requires start <= i < |line| && !IsBracket(line[i])
    requires Scanned(base, anchored, line, start, i, st)
    requires ForwardStack(st') && Strip(st') == Strip(st)
    requires anchored ==> Anchored(st')
    ensures Scanned(base, anchored, line, start, i + 1, st')
  {
    RunNext(base, line, start, i);
    RunOne(Strip(st), line[i]);
    assert line[i..][1..] == line[i + 1..];
  }

  lemma {:induction false} ScannedStuck(base: string, line: string, start: nat, i: nat, st: string)
    requires start <= i < |line| && IsCloser(line[i])
    requires Scanned(base, true, line, start, i, st)
    requires st != [] && IsBracket(Last(st)) && !Pairs(Last(st), line[i])
    ensures Find(base, line[start..]) == Stuck
  {
  }

  /** The characters other than brackets in the forward scan: `<` is pushed and `>`
      pops it, unless they belong to an operator; `<<` takes back a `<`; `;` drops
      all pending ones. `stop` says that this emptied the stack. */
  method ForwardMark(line: string, i: nat, st: string) returns (st': string, stop: bool)
    requires i < |line| && !IsBracket(line[i]) && ForwardStack(st)
    ensures ForwardStack(st') && Strip(st') == Strip(st)
    ensures Anchored(st) ==> Anchored(st') && !stop
    ensures stop ==> st' == []
    ensures Next(LevelOf(st), TokenAt(line, i)) ==
            if !stop then GoesOn(LevelOf(st')) else if line[i] == '>' then Ends(1) else Fails
  {
    var c := line[i];
    st', stop := st, false;
    LessSteps(st);
    GreaterSteps(st);
    if st != [] { assert Last(st) in st; }
    if c == '<' {
      if i > 0 && line[i - 1] == '<' {
        if st != [] && Last(st) == '<' {
          st' := Front(st);
          stop := st' == [];
        }
      } else if i > 0 && EndsInOperator(line, i) {
      } else {
        StripPush(st, '<');
        st' := st + ['<'];
      }
    } else if c == '>' {
      if i > 0 && (line[i - 1] == '-' || EndsInOperator(line, i - 1)) {
      } else if st != [] && Last(st) == '<' {
        st' := Front(st);
        stop := st' == [];
      }
    } else if c == ';' {
      st' := PopPending(st, '<');
      stop := st' == [];
      SemicolonSteps(st, st');
    }
  }

  ghost predicate ForwardAnchored(line: string, start: nat, stack: string) {
    Anchored(stack) || (stack == [] && start < |line| && IsOpener(line[start]))
  }

  /** The scan of FindEndOfExpressionInLine from `start` and `stack`, before position `i`. */
  ghost predicate ForwardAt(line: string, start: nat, stack: string, i: nat, st: string) {
    start <= i <= |line| && Scanned(Strip(stack), ForwardAnchored(line, start, stack), line, start, i, st)
  }

  lemma {:induction false} EndFound(line: string, start: nat, stack: string, i: nat)
    requires start <= i < |line| && (line[i] == '>' || IsCloser(line[i]))
    requires Run(Strip(stack), line[start..i + 1]) == Some([])
    requires ForwardAnchored(line, start, stack) ==> Find(Strip(stack), line[start..]) == Found(i + 1 - start)
    ensures LineVerdict(line, start, stack, i + 1, None)
  {
  }

  lemma {:induction false} EndStop(line: string, start: nat, stack: string, rest: Option<string>)
    requires start <= |line|
    requires rest.None? && ForwardAnchored(line, start, stack) ==> Find(Strip(stack), line[start..]) == Stuck
    requires rest.Some? ==> ForwardAt(line, start, stack, |line|, rest.value)
    ensures LineVerdict(line, start, stack, -1, rest)
  {
    assert line[start..] == line[start..|line|] && line[|line|..] == [];
  }

  /** One step of the forward scan, in terms of AngleBrackets. */
  ghost predicate Stepped(line: string, i: nat, st: string, st': string, stop: bool, pos: int)
    requires i < |line|
  {
    if !stop then Next(LevelOf(st), TokenAt(line, i)) == GoesOn(LevelOf(st'))
    else (pos == -1 || pos == i + 1) && Next(LevelOf(st), TokenAt(line, i)) == if pos == -1 then Fails else Ends(1)
  }

  /** A closing bracket in the forward scan: pending `<` are dropped, and then it closes the
      top of the stack or does not fit. */
  method ForwardCloser(line: string, i: nat, st: string, ghost start: nat, ghost stack: string)
    returns (st': string, stop: bool, pos: int)
    requires i < |line| && IsCloser(line[i]) && ForwardAt(line, start, stack, i, st)
    ensures stop ==> LineVerdict(line, start, stack, pos, None)
    ensures !stop ==> ForwardAt(line, start, stack, i + 1, st')
    ensures Stepped(line, i, st, st', stop, pos)
  {
    ghost var base, anchored := Strip(stack), ForwardAnchored(line, start, stack);
    stop, pos := true, -1;
    st' := PopPending(st, '<');
    LeaveSteps(st, st', line[i]);
    if st' == [] {
      EndStop(line, start, stack, None);
      return;
    }
    assert Scanned(base, anchored, line, start, i, st');
    if Pairs(Last(st'), line[i]) {
      ScannedPop(base, anchored, line, start, i, st');
      st' := Front(st');
      if st' != [] { return st', false, -1; }
      EndFound(line, start, stack, i);
      pos := i + 1;
    } else {
      if anchored { ScannedStuck(base, line, start, i, st'); }
      EndStop(line, start, stack, None);
    }
  }

  /** Any other character that is not a bracket. */
  method ForwardOther(line: string, i: nat, st: string, ghost start: nat, ghost stack: string)
    returns (st': string, stop: bool, pos: int)
    requires i < |line| && !IsBracket(line[i]) && ForwardAt(line, start, stack, i, st)
    ensures stop ==> LineVerdict(line, start, stack, pos, None)
    ensures !stop ==> ForwardAt(line, start, stack, i + 1, st')
    ensures Stepped(line, i, st, st', stop, pos)
  {
    ghost var base, anchored := Strip(stack), ForwardAnchored(line, start, stack);
    st', stop := ForwardMark(line, i, st);
    pos := -1;
    if !stop {
      ScannedSkip(base, anchored, line, start, i, st, st');
    } else if line[i] == '>' {
      RunNext(base, line, start, i);
      RunOne(Strip(st), line[i]);
      EndFound(line, start, stack, i);
      pos := i + 1;
    } else {
      EndStop(line, start, stack, None);
    }
  }

  /** One round of the forward scan. */
  method ForwardStep(line: string, i: nat, st: string, ghost start: nat, ghost stack: string)
    returns (st': string, stop: bool, pos: int)
    requires i < |line| && ForwardAt(line, start, stack, i, st)
    ensures stop ==> LineVerdict(line, start, stack, pos, None)
    ensures !stop ==> ForwardAt(line, start, stack, i + 1, st')
    ensures Stepped(line, i, st, st', stop, pos)
  {
    if IsOpener(line[i]) {
      ScannedPush(Strip(stack), ForwardAnchored(line, start, stack), line, start, i, st);
      EnterSteps(st, line[i]);
      return st + [line[i]], false, -1;
    } else if IsCloser(line[i]) {
      st', stop, pos := ForwardCloser(line, i, st, start, stack);
    } else {
      st', stop, pos := ForwardOther(line, i, st, start, stack);
    }
  }

  /** FindEndOfExpressionInLine. `rest` is the stack at the end of the line, None
      when the expression was closed or given up on this line. */
  method FindEndOfExpressionInLine(line: string, start: nat, stack: string)
    returns (pos: int, rest: Option<string>)
    requires ForwardStack(stack)
    ensures LineVerdict(line, start, stack, pos, rest)
    ensures start <= |line| ==> Tells(SearchIn(LevelOf(stack), Lex(line)[start..]), start, pos, rest)
  {
    if start > |line| { return -1, Some(stack); }
    var st, i := stack, start;
    assert Lex(line)[start..start] == [];
    while i < |line|
      invariant ForwardAt(line, start, stack, i, st) && Searched(line, start, stack, i, st)
    {
      var st', stop, p := ForwardStep(line, i, st, start, stack);
      if stop {
        ForwardStops(line, start, stack, i, st, st', p);
        return p, None;
      }
      ForwardGoes(line, start, stack, i, st, st');
      st, i := st', i + 1;
    }
    EndStop(line, start, stack, Some(st));
    ForwardEnds(line, start, stack, st);
    return -1, Some(st);
  }

  ghost predicate Searched(line: string, start: nat, stack: string, i: nat, st: string)
    requires start <= i <= |line|
  {
    SearchIn(LevelOf(stack), Lex(line)[start..i]) == GoesOn(LevelOf(st))
  }

  lemma {:induction false} ForwardGoes(line: string, start: nat, stack: string, i: nat, st: string, st': string)
    requires start <= i < |line| && Searched(line, start, stack, i, st) && Stepped(line, i, st, st', false, -1)
    ensures Searched(line, start, stack, i + 1, st')
  {
    SearchNext(LevelOf(stack), Lex(line), start, i);
  }

  lemma {:induction false} ForwardStops(
    line: string, start: nat, stack: string, i: nat, st: string, st': string, pos: int)
    requires start <= i < |line| && Searched(line, start, stack, i, st) && Stepped(line, i, st, st', true, pos)
    ensures Tells(SearchIn(LevelOf(stack), Lex(line)[start..]), start, pos, None)
  {
    StoppedAt(LevelOf(stack), Lex(line), start, i);
  }

  lemma {:induction false} ForwardEnds(line: string, start: nat, stack: string, st: string)
    requires start <= |line| && Searched(line, start, stack, |line|, st)
    ensures Tells(SearchIn(LevelOf(stack), Lex(line)[start..]), start, -1, Some(st))
  {
    var ts := Lex(line);
    LevelEmpty(st);
    SearchNext(LevelOf(stack), ts, start, |line|);
    assert ts[start..|line| + 1] == ts[start..];
  }

  // ---- The whole file as one text ----

  function Flatten(lines: seq<string>): (r: string) {
    if lines == [] then [] else lines[0] + Flatten(lines[1..])
  }

  lemma {:induction false} FlattenConcat(u: seq<string>, v: seq<string>)
    ensures Flatten(u + v) == Flatten(u) + Flatten(v)
    decreases |u|
  {
    if u == [] {
      assert u + v == v;
    } else {
      assert (u + v)[1..] == u[1..] + v;
      FlattenConcat(u[1..], v);
    }
  }

  /** Where line `l`, position `p` is in the flattened text. */
  function At(lines: seq<string>, l: nat, p: int): (r: int)
    requires l <= |lines|
  {
    |Flatten(lines[..l])| + p
  }

  lemma {:induction false} FlattenSplit(lines: seq<string>, l: nat)
    requires l <= |lines|
    ensures Flatten(lines) == Flatten(lines[..l]) + Flatten(lines[l..])
    ensures At(lines, l, 0) <= |Flatten(lines)| && Flatten(lines)[At(lines, l, 0)..] == Flatten(lines[l..])
  {
    assert lines == lines[..l] + lines[l..];
    FlattenConcat(lines[..l], lines[l..]);
  }

  lemma {:induction false} AtNext(lines: seq<string>, l: nat)
    requires l < |lines|
    ensures At(lines, l + 1, 0) == At(lines, l, |lines[l]|)
  {
    assert lines[..l + 1] == lines[..l] + [lines[l]];
    FlattenConcat(lines[..l], [lines[l]]);
    assert [lines[l]][1..] == [];
    assert Flatten([lines[l]]) == lines[l] + Flatten([]);
  }

  lemma {:induction false} FlattenAt(lines: seq<string>, l: nat, p: nat)
    requires l < |lines| && p <= |lines[l]|
    ensures At(lines, l + 1, 0) == At(lines, l, |lines[l]|) <= |Flatten(lines)|
    ensures Flatten(lines)[At(lines, l, p)..At(lines, l + 1, 0)] == lines[l][p..]
  {
    FlattenSplit(lines, l);
    AtNext(lines, l);
    assert Flatten(lines[l..]) == lines[l] + Flatten(lines[l..][1..]);
    var a, u, v := Flatten(lines[..l]), lines[l], Flatten(lines[l..][1..]);
    assert Flatten(lines) == a + (u + v);
    assert (a + (u + v))[|a| + p..|a| + |u|] == u[p..];
  }

  lemma {:induction false} AtMonotone(lines: seq<string>, l: nat, m: nat)
    requires l <= m <= |lines|
    ensures At(lines, l, 0) <= At(lines, m, 0)
  {
    assert lines[..m] == lines[..l] + lines[l..m];
    FlattenConcat(lines[..l], lines[l..m]);
  }

  lemma {:induction false} AtInjective(lines: seq<string>, l: nat, p: nat, l': nat, p': nat)
    requires l < |lines| && p < |lines[l]| && l' < |lines| && p' < |lines[l']|
    requires At(lines, l, p) == At(lines, l', p')
    ensures l == l' && p == p'
  {
    AtNext(lines, l);
    AtNext(lines, l');
    if l < l' { AtMonotone(lines, l + 1, l'); }
    if l' < l { AtMonotone(lines, l' + 1, l); }
  }

  lemma {:induction false} CharAt(lines: seq<string>, l: nat, p: nat)
    requires l < |lines| && p < |lines[l]|
    ensures At(lines, l, p) < |Flatten(lines)| && Flatten(lines)[At(lines, l, p)] == lines[l][p]
  {
    FlattenAt(lines, l, p);
    assert lines[l][p] == lines[l][p..][0];
  }

  // ---- Forward over several lines ----

  /** The text has been scanned from `i` up to `k`, leaving stack `st`. */
  ghost predicate ScannedTo(t: string, i: nat, k: nat, st: string) {
    && i <= k <= |t| && i < |t|
    && ForwardStack(st)
    && Run([], t[i..k]) == Some(Strip(st))
    && (IsOpener(t[i]) ==>
          && (Anchored(st) || (st == [] && k == i))
          && Find([], t[i..]) == Later(Find(Strip(st), t[k..]), k - i))
  }

  lemma {:induction false} RunFurther(t: string, i: nat, k: nat, n: nat, st: string, u: string)
    requires i <= k <= n <= |t| && t[k..n] == u && Run([], t[i..k]) == Some(st)
    ensures Run([], t[i..n]) == Run(st, u)
  {
    assert t[i..n] == t[i..k] + u;
    RunSplit([], t[i..k], u);
  }

  lemma {:induction false} FindFurther(t: string, i: nat, k: nat, n: nat, st: string, s: string)
    requires i <= k <= n <= |t| && t[k..n] == s
    requires Find([], t[i..]) == Later(Find(st, t[k..]), k - i)
    ensures match Find(st, s)
            case Found(m) => Find([], t[i..]) == Found(k - i + m)
            case Stuck => Find([], t[i..]) == Stuck
            case Open(st') => Find([], t[i..]) == Later(Find(st', t[n..]), n - i)
  {
    assert t[k..] == s + t[n..];
    FindSplit(st, s, t[n..]);
  }

  lemma {:induction false} LineDone(t: string, i: nat, k: nat, st: string, line: string, start: nat, pos: int,
                                    rest: Option<string>)
    requires start <= |line| && k + |line| - start <= |t|
    requires t[k..k + |line| - start] == line[start..]
    requires ScannedTo(t, i, k, st) && (k == i ==> start < |line|)
    requires LineVerdict(line, start, st, pos, rest)
    ensures pos != -1 ==> Run([], t[i..k + pos - start]) == Some([])
    ensures pos != -1 && IsOpener(t[i]) ==> Find([], t[i..]) == Found(k + pos - start - i)
    ensures pos == -1 && rest.None? && IsOpener(t[i]) ==> Find([], t[i..]) == Stuck
    ensures rest.Some? ==> ScannedTo(t, i, k + |line| - start, rest.value)
  {
    var n := k + |line| - start;
    assert k == i ==> line[start..][0] == t[i];
    if IsOpener(t[i]) { FindFurther(t, i, k, n, Strip(st), line[start..]); }
    if pos != -1 {
      assert t[k..k + pos - start] == line[start..][..pos - start] == line[start..pos];
      RunFurther(t, i, k, k + pos - start, Strip(st), line[start..pos]);
    }
    RunFurther(t, i, k, n, Strip(st), line[start..]);
  }

  /** From `i` up to, not including, `k` the text is well nested and, if `i` is an
      opening bracket, ends with the bracket that closes it. */
  ghost predicate Encloses(t: string, i: int, k: int) {
    && 0 <= i < k <= |t| && Nested(t[i..k])
    && (IsOpener(t[i]) ==> Match(t, i, k - 1))
  }

  /** The promise of CloseExpression when it finds an end. */
  ghost predicate ClosedAt(lines: seq<string>, l: nat, p: nat, endLine: nat, endPos: int)
    requires l < |lines|
  {
    && l <= endLine < |lines| && 0 < endPos <= |lines[endLine]|
    && Encloses(Flatten(lines), At(lines, l, p), At(lines, endLine, endPos))
  }

  lemma {:induction false} EnclosesFromScan(t: string, i: nat, k: nat)
    requires i < k <= |t| && Run([], t[i..k]) == Some([])
    requires IsOpener(t[i]) ==> Find([], t[i..]) == Found(k - i)
    ensures Encloses(t, i, k)
  {
    NestedIffRun(t[i..k]);
    if IsOpener(t[i]) { FoundIsMatch(t, i, k); }
  }

  lemma {:induction false} FoundIsMatch(t: string, i: nat, end: nat)
    requires i < |t| && IsOpener(t[i]) && i < end && Find([], t[i..]) == Found(end - i)
    ensures Match(t, i, end - 1)
  {
    FoundIsInText([], t[i..]);
    assert t[i..][1..] == t[i + 1..];
    if i < end - 1 { FindIsMatch(t, i, end - 1); }
  }

  lemma {:induction false} GiveUp(t: string, i: nat)
    requires i < |t| && IsOpener(t[i]) && !Find([], t[i..]).Found?
    ensures forall j :: !Match(t, i, j)
  {
    forall j ensures !Match(t, i, j) {
      if i < j < |t| { FindIsMatch(t, i, j); }
    }
  }

  /** The state of CloseExpression before line `l`, with stack `rest`. */
  ghost predicate Searching(lines: seq<string>, i: int, l: nat, rest: Option<string>)
    requires l <= |lines|
  {
    SearchingText(Flatten(lines), i, At(lines, l, 0), rest)
  }

  /** The search ended without an end: at the last line, or with no bracket open. */
  lemma {:induction false} SearchFailed(lines: seq<string>, i: int, l: nat, rest: Option<string>)
    requires l <= |lines| && Searching(lines, i, l, rest)
    requires rest.None? || rest.value == [] || l == |lines|
    requires IsOpener(Flatten(lines)[i])
    ensures forall j :: !Match(Flatten(lines), i, j)
  {
    if rest.Some? && rest.value != [] {
      FlattenSplit(lines, l);
      assert lines[l..] == [];
    }
    GiveUp(Flatten(lines), i);
  }

  lemma {:induction false} ScannedToStart(t: string, i: nat)
    requires i < |t|
    ensures ScannedTo(t, i, i, [])
  {
    assert t[i..i] == [] && Strip([]) == [];
  }

  /** A search from position `p` of line `l` that has come to position `start` of line `m`. */
  ghost predicate LineReady(lines: seq<string>, l: nat, p: nat, m: nat, start: nat, st: string) {
    && l <= m < |lines| && p < |lines[l]| && start <= |lines[m]|
    && (if l == m then start == p && st == [] else start == 0)
    && (l < m ==> ScannedTo(Flatten(lines), At(lines, l, p), At(lines, m, start), st))
  }

  /** The same in the text of all lines: position `i` of the text `t`, and position `k` where
      the rest of the line stands. */
  ghost predicate TextReady(t: string, i: int, k: int, line: string, start: nat, st: string) {
    && 0 <= i <= k && i < |t| && start <= |line| && k + |line| - start <= |t|
    && t[k..k + |line| - start] == line[start..]
    && ScannedTo(t, i, k, st) && (k == i ==> start < |line|)
  }

  lemma {:induction false} LinePlace(lines: seq<string>, l: nat, p: nat, m: nat, start: nat, st: string)
    requires LineReady(lines, l, p, m, start, st)
    ensures TextReady(Flatten(lines), At(lines, l, p), At(lines, m, start), lines[m], start, st)
    ensures At(lines, m + 1, 0) == At(lines, m, start) + |lines[m]| - start
  {
    CharAt(lines, l, p);
    FlattenAt(lines, m, start);
    AtNext(lines, m);
    if l == m {
      ScannedToStart(Flatten(lines), At(lines, l, p));
    } else {
      AtNext(lines, l);
      AtMonotone(lines, l + 1, m);
    }
  }

  /** The search at position `n` of the text, with stack `rest`. */
  ghost predicate SearchingText(t: string, i: int, n: int, rest: Option<string>) {
    && 0 <= i < |t| && i < n <= |t|
    && (rest.Some? ==> ScannedTo(t, i, n, rest.value))
    && (rest.None? && IsOpener(t[i]) ==> Find([], t[i..]) == Stuck)
  }

  lemma {:induction false} SearchText(t: string, i: int, k: int, line: string, start: nat, st: string,
                                      pos: int, rest: Option<string>)
    requires TextReady(t, i, k, line, start, st) && LineVerdict(line, start, st, pos, rest)
    ensures if pos != -1 then start < pos <= |line| && Encloses(t, i, k + pos - start)
            else SearchingText(t, i, k + |line| - start, rest)
  {
    LineDone(t, i, k, st, line, start, pos, rest);
    if pos != -1 { EnclosesFromScan(t, i, k + pos - start); }
  }

  /** One line of the search, from `start`. */
  lemma {:induction false} SearchLine(lines: seq<string>, l: nat, p: nat, m: nat, start: nat, st: string,
                                      pos: int, rest: Option<string>)
    requires LineReady(lines, l, p, m, start, st)
    requires LineVerdict(lines[m], start, st, pos, rest)
    ensures pos != -1 ==> ClosedAt(lines, l, p, m, pos)
    ensures pos == -1 ==> Searching(lines, At(lines, l, p), m + 1, rest)
  {
    LinePlace(lines, l, p, m, start, st);
    SearchText(Flatten(lines), At(lines, l, p), At(lines, m, start), lines[m], start, st, pos, rest);
    assert At(lines, m, pos) == At(lines, m, start) + pos - start;
  }

  /** No bracket and no `<`, or `<<` or `<=` */
  predicate StartsNothing(line: string, pos: nat)
    requires pos < |line|
  {
    || (!IsOpener(line[pos]) && line[pos] != '<')
    || (line[pos] == '<' && pos + 1 < |line| && (line[pos + 1] == '<' || line[pos + 1] == '='))
  }

  /** One line of the forward search. */
  method SearchLineOn(lines: seq<string>, ghost l: nat, ghost p: nat, m: nat, start: nat, st: string)
    returns (end: int, rest: Option<string>)
    requires LineReady(lines, l, p, m, start, st) && ForwardStack(st)
    ensures end == -1 || 0 <= end <= |lines[m]|
    ensures if end != -1 then ClosedAt(lines, l, p, m, end) else Searching(lines, At(lines, l, p), m + 1, rest)
    ensures CloseOf(lines, m, start, LevelOf(st)) == if end != -1 then Some((m, end)) else Onwards(lines, m, rest)
  {
    end, rest := FindEndOfExpressionInLine(lines[m], start, st);
    CloseLine(lines, m, start, LevelOf(st), end, rest);
    SearchLine(lines, l, p, m, start, st, end, rest);
  }

  /** CloseExpression: the line and the position just past the closing bracket, or
      the number of lines and -1. */
  method CloseExpression(lines: seq<string>, linenum: nat, pos: nat) returns (endLine: nat, endPos: int)
    requires linenum < |lines| && pos < |lines[linenum]|
    ensures endPos != -1 ==> ClosedAt(lines, linenum, pos, endLine, endPos)
    ensures endPos == -1 ==> endLine == |lines|
    ensures endPos == -1 && IsOpener(lines[linenum][pos]) ==>
              forall j :: !Match(Flatten(lines), At(lines, linenum, pos), j)
    ensures !IsOpener(lines[linenum][pos]) && lines[linenum][pos] != '<' ==> endPos == -1
    ensures (if endPos == -1 then None else Some((endLine, endPos))) ==
            if StartsNothing(lines[linenum], pos) then None else CloseOf(lines, linenum, pos, START)
  {
    var line := lines[linenum];
    if StartsNothing(line, pos) { return |lines|, -1; }
    var end, rest := SearchLineOn(lines, linenum, pos, linenum, pos, []);
    if end > -1 { return linenum, end; }

    ghost var i := At(lines, linenum, pos);
    var l := linenum;
    while rest.Some? && rest.value != [] && l < |lines| - 1
      invariant linenum <= l < |lines|
      invariant Searching(lines, i, l + 1, rest)
      invariant CloseOf(lines, linenum, pos, START) == Onwards(lines, l, rest)
      decreases |lines| - l
    {
      l := l + 1;
      end, rest := SearchLineOn(lines, linenum, pos, l, 0, rest.value);
      if end > -1 { return l, end; }
    }
    if IsOpener(line[pos]) {
      CharAt(lines, linenum, pos);
      SearchFailed(lines, i, l + 1, rest);
    }
    return |lines|, -1;
  }

  // ---- Backward ----

  /** A backward stack as the forward scan of the mirrored text would hold it. */
  function Turn(stack: string): (r: string)
    ensures |r| == |stack| && forall k :: 0 <= k < |stack| ==> r[k] == Flip(stack[k])
  {
    seq(|stack|, k requires 0 <= k < |stack| => Flip(stack[k]))
  }

  function TurnOption(stack: Option<string>): (r: Option<string>) {
    if stack.None? then None else Some(Turn(stack.value))
  }

  /** A position of a line, counted from the other end as a position just past. */
  function FromEnd(line: string, pos: int): (r: int) {
    if pos == -1 then -1 else |line| - pos
  }

  predicate BackwardStack(stack: string) {
    forall c :: c in stack ==> IsCloser(c) || c == '>'
  }

  lemma {:induction false} TurnForward(stack: string)
    requires BackwardStack(stack)
    ensures ForwardStack(Turn(stack))
  {
    forall c | c in Turn(stack) ensures IsOpener(c) || c == '<' {
      var k :| 0 <= k < |stack| && Turn(stack)[k] == c;
      assert stack[k] in stack;
    }
  }

  lemma {:induction false} TurnPush(stack: string, c: char)
    ensures Turn(stack + [c]) == Turn(stack) + [Flip(c)]
  {
  }

  lemma {:induction false} TurnFront(stack: string)
    requires stack != []
    ensures Front(Turn(stack)) == Turn(Front(stack)) && Last(Turn(stack)) == Flip(Last(stack))
  {
  }

  lemma {:induction false} TurnStrip(stack: string, r: string)
    requires r <= stack && forall m :: |r| <= m < |stack| ==> stack[m] == '>'
    ensures Strip(Turn(r)) == Strip(Turn(stack))
    decreases |stack|
  {
    if r == stack {
    } else {
      TurnFront(stack);
      TurnStrip(Front(stack), r);
    }
  }

  /** The backward scan so far: `line[i + 1..end + 1]` is behind it. */
  ghost predicate BackScanned(base: string, anchored: bool, line: string, end: int, i: int, st: string)
    requires -1 <= i <= end < |line|
  {
    && BackwardStack(st)
    && Scanned(base, anchored, Mirror(line), |line| - 1 - end, |line| - 1 - i, Turn(st))
  }

  lemma {:induction false} BackPush(base: string, anchored: bool, line: string, end: int, i: int, st: string)
    requires 0 <= i <= end < |line| && IsCloser(line[i])
    requires BackScanned(base, anchored, line, end, i, st)
    ensures BackScanned(base, anchored, line, end, i - 1, st + [line[i]])
  {
    MirrorAt(line, |line| - 1 - i);
    ScannedPush(base, anchored, Mirror(line), |line| - 1 - end, |line| - 1 - i, Turn(st));
    TurnPush(st, line[i]);
  }

  lemma {:induction false} BackSkip(
    base: string, anchored: bool, line: string, end: int, i: int, st: string, st': string)
    requires 0 <= i <= end < |line| && !IsBracket(line[i])
    requires BackScanned(base, anchored, line, end, i, st)
    requires BackwardStack(st') && Strip(Turn(st')) == Strip(Turn(st))
    requires anchored ==> Anchored(st')
    ensures BackScanned(base, anchored, line, end, i - 1, st')
  {
    MirrorAt(line, |line| - 1 - i);
    TurnForward(st');
    ScannedSkip(base, anchored, Mirror(line), |line| - 1 - end, |line| - 1 - i, Turn(st), Turn(st'));
  }

  lemma {:induction false} BackPop(base: string, anchored: bool, line: string, end: int, i: int, st: string)
    requires 0 <= i <= end < |line| && st != [] && Pairs(line[i], Last(st))
    requires BackScanned(base, anchored, line, end, i, st)
    ensures Front(st) != [] ==> BackScanned(base, anchored, line, end, i - 1, Front(st))
    ensures Front(st) == [] ==> Run(base, Mirror(line)[|line| - 1 - end..|line| - i]) == Some([])
    ensures Front(st) == [] && anchored ==> Find(base, Mirror(line)[|line| - 1 - end..]) == Found(end + 1 - i)
  {
    MirrorAt(line, |line| - 1 - i);
    TurnFront(st);
    ScannedPop(base, anchored, Mirror(line), |line| - 1 - end, |line| - 1 - i, Turn(st));
  }

  lemma {:induction false} BackStuck(base: string, line: string, end: int, i: int, st: string)
    requires 0 <= i <= end < |line| && IsOpener(line[i])
    requires st != [] && IsBracket(Last(st)) && !Pairs(line[i], Last(st))
    requires BackScanned(base, true, line, end, i, st)
    ensures Find(base, Mirror(line)[|line| - 1 - end..]) == Stuck
  {
    MirrorAt(line, |line| - 1 - i);
    TurnFront(st);
    ScannedStuck(base, Mirror(line), |line| - 1 - end, |line| - 1 - i, Turn(st));
  }

  lemma {:induction false} BackMarks(
    base: string, anchored: bool, line: string, end: int, i: int, st: string, st': string)
    requires -1 <= i <= end < |line|
    requires BackScanned(base, anchored, line, end, i, st)
    requires st' <= st && forall m :: |st'| <= m < |st| ==> st[m] == '>'
    ensures Strip(Turn(st')) == Strip(Turn(st)) && BackwardStack(st')
    ensures anchored && st != [] ==> st' != [] && Anchored(st')
    ensures st' != [] ==> BackScanned(base, anchored, line, end, i, st')
  {
    TurnStrip(st, st');
    TurnForward(st');
  }

  lemma {:induction false} BackTemplate(base: string, anchored: bool, line: string, end: int, i: int, st: string)
    requires 0 <= i <= end < |line| && line[i] == '<' && st == ['>']
    requires BackScanned(base, anchored, line, end, i, st)
    ensures !anchored && Run(base, Mirror(line)[|line| - 1 - end..|line| - i]) == Some([])
  {
    MirrorAt(line, |line| - 1 - i);
    RunNext(base, Mirror(line), |line| - 1 - end, |line| - 1 - i);
    assert Strip(Turn(st)) == [] by { assert Turn(st) == ['<'] && Front(['<']) == []; }
    RunOne([], '>');
  }

  ghost predicate BackVerdict(line: string, end: int, stack: string, pos: int, rest: Option<string>)
    requires end < |line|
  {
    LineVerdict(Mirror(line), |line| - 1 - end, Turn(stack), FromEnd(line, pos), TurnOption(rest))
  }

  ghost predicate BackAnchored(line: string, end: int, stack: string)
    requires -1 <= end < |line|
  {
    Anchored(Turn(stack)) || (stack == [] && end >= 0 && IsCloser(line[end]))
  }

  lemma {:induction false} BackStart(line: string, end: int, stack: string)
    requires -1 <= end < |line| && BackwardStack(stack)
    ensures BackScanned(Strip(Turn(stack)), BackAnchored(line, end, stack), line, end, end, stack)
    ensures end >= 0 ==> Mirror(line)[|line| - 1 - end] == Flip(line[end])
  {
    if end >= 0 { MirrorAt(line, |line| - 1 - end); }
    TurnForward(stack);
  }

  lemma {:induction false} BackFound(line: string, end: int, stack: string, i: int)
    requires 0 <= i <= end < |line| && (line[i] == '<' || IsOpener(line[i]))
    requires Run(Strip(Turn(stack)), Mirror(line)[|line| - 1 - end..|line| - i]) == Some([])
    requires BackAnchored(line, end, stack) ==>
               Find(Strip(Turn(stack)), Mirror(line)[|line| - 1 - end..]) == Found(end + 1 - i)
    ensures BackVerdict(line, end, stack, i, None)
  {
    MirrorAt(line, |line| - 1 - end);
    MirrorAt(line, |line| - 1 - i);
  }

  lemma {:induction false} BackStop(line: string, end: int, stack: string, rest: Option<string>)
    requires -1 <= end < |line| && BackwardStack(stack)
    requires rest.None? && BackAnchored(line, end, stack) ==>
               Find(Strip(Turn(stack)), Mirror(line)[|line| - 1 - end..]) == Stuck
    requires rest.Some? ==>
               BackScanned(Strip(Turn(stack)), BackAnchored(line, end, stack), line, end, -1, rest.value)
    ensures BackVerdict(line, end, stack, -1, rest)
  {
    if end >= 0 { MirrorAt(line, |line| - 1 - end); }
    var m, start := Mirror(line), |line| - 1 - end;
    assert m[start..] == m[start..|m|] && m[|m|..] == [];
  }

  /** The characters other than brackets in the backward scan: `>` is pushed and `<`
      pops it, unless it belongs to an operator, whose other character is then
      skipped; `;` drops all pending ones. `stop` says that this emptied the stack. */
  method BackwardMark(line: string, i: nat, st: string) returns (st': string, skip: bool, stop: bool)
    requires i < |line| && !IsBracket(line[i]) && BackwardStack(st)
    ensures BackwardStack(st') && Strip(Turn(st')) == Strip(Turn(st))
    ensures Anchored(st) ==> Anchored(st') && !stop
    ensures skip ==> i > 0 && !IsBracket(line[i - 1]) && st' == st && !stop
    ensures stop ==> st' == [] && (line[i] == '<' ==> st == ['>']) && (line[i] == '<' || line[i] == ';')
    ensures skip ==> (line[i] == line[i - 1] == '<') || (BackTokenAt(line, i - 1) == Plain && line[i - 1] != '<')
    ensures !skip && !stop ==> !(i > 0 && line[i] == line[i - 1] == '<')
    ensures Whole(line, i) ==>
              Next(LevelOf(Turn(st)), BackTokenAt(line, i)) ==
              if !stop then GoesOn(LevelOf(Turn(st'))) else if line[i] == '<' then Ends(1) else Fails
  {
    st', skip, stop := st, false, false;
    if line[i] == '>' {
      OperatorIsPlain(line, i);
      if BackOperator(line, i) {
        skip := true;
      } else {
        st' := st + ['>'];
        BackLessSteps(st);
      }
    } else if line[i] == '<' {
      BackGreaterSteps(st);
      if i > 0 && line[i - 1] == '<' {
        skip := true;
      } else if st != [] && Last(st) == '>' {
        st' := Front(st);
        stop := st' == [];
      }
    } else if line[i] == ';' {
      st' := PopPending(st, '>');
      BackSemicolonSteps(st, st');
      stop := st' == [];
    }
  }

  lemma {:induction false} BackLessSteps(st: string)
    ensures Next(LevelOf(Turn(st)), Less) == GoesOn(LevelOf(Turn(st + ['>'])))
    ensures Strip(Turn(st + ['>'])) == Strip(Turn(st))
  {
    TurnPush(st, '>');
    LessSteps(Turn(st));
    StripPush(Turn(st), '<');
  }

  lemma {:induction false} BackGreaterSteps(st: string)
    requires BackwardStack(st)
    ensures Next(LevelOf(Turn(st)), Greater) ==
            if st == [] || Last(st) != '>' then GoesOn(LevelOf(Turn(st)))
            else if Front(st) == [] then Ends(1)
            else GoesOn(LevelOf(Turn(Front(st))))
    ensures st != [] && Last(st) == '>' ==> Strip(Turn(Front(st))) == Strip(Turn(st))
  {
    GreaterSteps(Turn(st));
    if st != [] {
      TurnFront(st);
      assert Last(st) in st;
    }
  }

  lemma {:induction false} BackSemicolonSteps(st: string, r: string)
    requires BackwardStack(st) && r <= st && (r != [] ==> Last(r) != '>')
    requires forall m :: |r| <= m < |st| ==> st[m] == '>'
    ensures Next(LevelOf(Turn(st)), Semicolon) == if r == [] then Fails else GoesOn(LevelOf(Turn(r)))
    ensures Strip(Turn(r)) == Strip(Turn(st))
  {
    TurnStrip(st, r);
    TurnPrefix(st, r);
    SemicolonSteps(Turn(st), Turn(r));
  }

  /** One step of the backward scan, which goes on at `next`. */
  ghost predicate BackStepped(line: string, i: nat, st: string, st': string, stop: bool, pos: int, next: int)
    requires i < |line|
  {
    var r := Next(LevelOf(Turn(st)), BackTokenAt(line, i));
    if !stop then
      && r == GoesOn(LevelOf(Turn(st')))
      && (next == i - 1 || (next == i - 2 && i > 0 && BackTokenAt(line, i - 1) == Plain)) && Whole(line, next)
    else (pos == -1 || pos == i) && r == if pos == -1 then Fails else Ends(1)
  }

  lemma {:induction false} TurnPrefix(stack: string, r: string)
    requires r <= stack && BackwardStack(stack) && (r != [] ==> Last(r) != '>')
    requires forall m :: |r| <= m < |stack| ==> stack[m] == '>'
    ensures Turn(r) <= Turn(stack) && (r != [] ==> IsBracket(Last(Turn(r))))
    ensures forall m :: |r| <= m < |stack| ==> !IsBracket(Turn(stack)[m])
  {
    if r != [] { assert Last(r) in stack; }
  }

  /** The scan of FindStartOfExpressionInLine from `end` and `stack`, before position `i`. */
  ghost predicate BackAt(line: string, end: int, stack: string, i: int, st: string) {
    -1 <= i <= end < |line| && BackwardStack(stack) &&
    BackScanned(Strip(Turn(stack)), BackAnchored(line, end, stack), line, end, i, st)
  }

  /** Once the scan has left its starting bracket, an anchored stack is not empty. */
  lemma {:induction false} BackUnderway(line: string, end: int, stack: string, i: int, st: string)
    requires BackAt(line, end, stack, i, st) && i >= 0 && !IsCloser(line[i])
    ensures BackAnchored(line, end, stack) ==> Anchored(st)
  {
    MirrorAt(line, |line| - 1 - i);
  }

  /** An opening bracket in the backward scan. */
  method BackwardOpener(line: string, i: nat, st: string, ghost end: int, ghost stack: string)
    returns (st': string, stop: bool, pos: int)
    requires BackAt(line, end, stack, i, st) && IsOpener(line[i])
    ensures stop ==> -1 <= pos <= end && BackVerdict(line, end, stack, pos, None)
    ensures !stop ==> BackAt(line, end, stack, i - 1, st')
    ensures BackStepped(line, i, st, st', stop, pos, i - 1)
  {
    ghost var base, anchored := Strip(Turn(stack)), BackAnchored(line, end, stack);
    BackUnderway(line, end, stack, i, st);
    stop, pos := true, -1;
    st' := PopPending(st, '>');
    BackLeaveSteps(st, st', line[i]);
    BackMarks(base, anchored, line, end, i, st, st');
    if st' == [] {
      BackStop(line, end, stack, None);
      return;
    }
    if Pairs(line[i], Last(st')) {
      BackPop(base, anchored, line, end, i, st');
      st' := Front(st');
      if st' != [] { return st', false, -1; }
      BackFound(line, end, stack, i);
      pos := i;
    } else {
      if anchored { BackStuck(base, line, end, i, st'); }
      BackStop(line, end, stack, None);
    }
  }

  /** Any other character that is not a bracket; `next` is where the scan goes on. */
  method BackwardOther(line: string, i: nat, st: string, ghost end: int, ghost stack: string)
    returns (st': string, stop: bool, pos: int, next: int)
    requires BackAt(line, end, stack, i, st) && !IsBracket(line[i])
    ensures stop ==> -1 <= pos <= end && BackVerdict(line, end, stack, pos, None)
    ensures !stop ==> -1 <= next < i && BackAt(line, end, stack, next, st')
    ensures Whole(line, i) ==> BackStepped(line, i, st, st', stop, pos, next)
  {
    ghost var base, anchored := Strip(Turn(stack)), BackAnchored(line, end, stack);
    BackUnderway(line, end, stack, i, st);
    if Whole(line, i) { WholeAfter(line, i); }
    var skip;
    st', skip, stop := BackwardMark(line, i, st);
    pos, next := -1, i - 1;
    if stop && line[i] == '<' {
      BackTemplate(base, anchored, line, end, i, st);
      BackFound(line, end, stack, i);
      pos := i;
    } else if stop {
      BackStop(line, end, stack, None);
    } else {
      BackSkip(base, anchored, line, end, i, st, st');
      if skip {
        BackSkip(base, anchored, line, end, i - 1, st', st');
        next := i - 2;
      }
    }
  }

  lemma {:induction false} BackLeaveSteps(st: string, r: string, c: char)
    requires BackwardStack(st) && r <= st && (r != [] ==> Last(r) != '>') && IsOpener(c)
    requires forall m :: |r| <= m < |st| ==> st[m] == '>'
    ensures Next(LevelOf(Turn(st)), Leave(Flip(c))) ==
            if r == [] || !Pairs(c, Last(r)) then Fails
            else if Front(r) == [] then Ends(1)
            else GoesOn(LevelOf(Turn(Front(r))))
  {
    TurnStrip(st, r);
    TurnPrefix(st, r);
    LeaveSteps(Turn(st), Turn(r), Flip(c));
    if r != [] {
      TurnFront(r);
      assert Last(r) in st;
    }
  }

  /** One round of the backward scan. */
  method BackwardStep(line: string, i: nat, st: string, ghost end: int, ghost stack: string)
    returns (st': string, stop: bool, pos: int, next: int)
    requires BackAt(line, end, stack, i, st)
    ensures stop ==> -1 <= pos <= end && BackVerdict(line, end, stack, pos, None)
    ensures !stop ==> -1 <= next < i && BackAt(line, end, stack, next, st')
    ensures Whole(line, i) ==> BackStepped(line, i, st, st', stop, pos, next)
  {
    next := i - 1;
    if IsCloser(line[i]) {
      BackPush(Strip(Turn(stack)), BackAnchored(line, end, stack), line, end, i, st);
      TurnPush(st, line[i]);
      EnterSteps(Turn(st), Flip(line[i]));
      st', stop, pos := st + [line[i]], false, -1;
    } else if IsOpener(line[i]) {
      st', stop, pos := BackwardOpener(line, i, st, end, stack);
    } else {
      st', stop, pos, next := BackwardOther(line, i, st, end, stack);
    }
  }

  /** FindStartOfExpressionInLine: on the mirrored line it does what the forward
      scan promises. */
  method FindStartOfExpressionInLine(line: string, end: int, stack: string)
    returns (pos: int, rest: Option<string>)
    requires -1 <= end < |line|
    requires BackwardStack(stack)
    ensures rest.Some? ==> BackwardStack(rest.value)
    ensures -1 <= pos <= end
    ensures BackVerdict(line, end, stack, pos, rest)
    ensures Whole(line, end) ==> BackTells(line, end, stack, pos, rest)
  {
    BackStart(line, end, stack);
    var st, i := stack, end;
    assert BackLex(line)[|line| - 1 - end..|line| - 1 - end] == [];
    while i >= 0
      invariant BackAt(line, end, stack, i, st)
      invariant Whole(line, end) ==> Whole(line, i) && BackSearched(line, end, stack, i, st)
    {
      var st', stop, p, next := BackwardStep(line, i, st, end, stack);
      if stop {
        if Whole(line, end) { BackStops(line, end, stack, i, st, p); }
        return p, None;
      }
      if Whole(line, end) { BackGoes(line, end, stack, i, st, st', next); }
      st, i := st', next;
    }
    BackStop(line, end, stack, Some(st));
    if Whole(line, end) { BackEnds(line, end, stack, st); }
    return -1, Some(st);
  }

  /** What the backward scan of a line finds, in terms of AngleBrackets. */
  ghost predicate BackTells(line: string, end: int, stack: string, pos: int, rest: Option<string>)
    requires -1 <= end < |line|
  {
    var k := |line| - 1 - end;
    Tells(SearchIn(LevelOf(Turn(stack)), BackLex(line)[k..]), k, FromEnd(line, pos), TurnOption(rest))
  }

  ghost predicate BackSearched(line: string, end: int, stack: string, i: int, st: string)
    requires -1 <= i <= end < |line|
  {
    SearchIn(LevelOf(Turn(stack)), BackLex(line)[|line| - 1 - end..|line| - 1 - i]) == GoesOn(LevelOf(Turn(st)))
  }

  lemma {:induction false} BackGoes(
    line: string, end: int, stack: string, i: nat, st: string, st': string, next: int)
    requires i <= end < |line| && BackSearched(line, end, stack, i, st) && -1 <= next < i
    requires BackStepped(line, i, st, st', false, -1, next)
    ensures BackSearched(line, end, stack, next, st')
  {
    var ts, k := BackLex(line), |line| - 1 - end;
    SearchNext(LevelOf(Turn(stack)), ts, k, |line| - 1 - i);
    if next == i - 2 { SearchNext(LevelOf(Turn(stack)), ts, k, |line| - i); }
  }

  lemma {:induction false} BackStops(line: string, end: int, stack: string, i: nat, st: string, pos: int)
    requires i <= end < |line| && BackSearched(line, end, stack, i, st) && (pos == -1 || pos == i)
    requires Next(LevelOf(Turn(st)), BackTokenAt(line, i)) == if pos == -1 then Fails else Ends(1)
    ensures BackTells(line, end, stack, pos, None)
  {
    StoppedAt(LevelOf(Turn(stack)), BackLex(line), |line| - 1 - end, |line| - 1 - i);
  }

  lemma {:induction false} BackEnds(line: string, end: int, stack: string, st: string)
    requires -1 <= end < |line| && BackSearched(line, end, stack, -1, st)
    ensures BackTells(line, end, stack, -1, Some(st))
  {
    var ts, k := BackLex(line), |line| - 1 - end;
    LevelEmpty(Turn(st));
    SearchNext(LevelOf(Turn(stack)), ts, k, |line|);
    assert ts[k..|line| + 1] == ts[k..];
  }

  lemma {:induction false} OperatorIsPlain(line: string, i: nat)
    requires i < |line|
    ensures BackOperator(line, i) ==>
              !IsBracket(line[i - 1]) && line[i - 1] != '<' && BackTokenAt(line, i - 1) == Plain
  {
    if BackOperator(line, i) && EndsInOperator(line, i) {
      var k :| 0 <= k <= i && OperatorEndsAt(line, k) && forall m :: k <= m < i ==> IsSpace(line[m]);
      if k < i { assert IsSpace(line[i - 1]); }
    }
  }

  // ---- Backward over several lines ----

  /** The file read from its end: lines in reverse order, each mirrored. */
  function MirrorLines(lines: seq<string>): (r: seq<string>)
    ensures |r| == |lines| && forall k :: 0 <= k < |lines| ==> r[k] == Mirror(lines[|lines| - 1 - k])
  {
    seq(|lines|, k requires 0 <= k < |lines| => Mirror(lines[|lines| - 1 - k]))
  }

  lemma {:induction false} FlattenMirror(lines: seq<string>)
    ensures Flatten(MirrorLines(lines)) == Mirror(Flatten(lines))
    decreases |lines|
  {
    if lines != [] {
      FlattenMirror(lines[1..]);
      assert MirrorLines(lines) == MirrorLines(lines[1..]) + [Mirror(lines[0])];
      FlattenConcat(MirrorLines(lines[1..]), [Mirror(lines[0])]);
      assert [Mirror(lines[0])][1..] == [];
      assert Flatten([Mirror(lines[0])]) == Mirror(lines[0]) + Flatten([]);
      MirrorConcat(lines[0], Flatten(lines[1..]));
    }
  }

  lemma {:induction false} MirrorLinesSuffix(lines: seq<string>, l: nat)
    requires l <= |lines|
    ensures MirrorLines(lines)[..|lines| - l] == MirrorLines(lines[l..])
  {
  }

  /** The same place, counted from either end. */
  lemma {:induction false} AtMirror(lines: seq<string>, l: nat, p: nat)
    requires l < |lines| && p <= |lines[l]|
    ensures At(MirrorLines(lines), |lines| - 1 - l, |lines[l]| - p) == |Flatten(lines)| - At(lines, l, p)
  {
    MirrorLinesSuffix(lines, l + 1);
    FlattenMirror(lines[l + 1..]);
    FlattenSplit(lines, l + 1);
    AtNext(lines, l);
  }

  /** From `i` up to and including `j` the text is well nested and, if `j` is a
      closing bracket, starts with the bracket that it closes. */
  ghost predicate Opens(t: string, i: int, j: int) {
    && 0 <= i <= j < |t| && Nested(t[i..j + 1])
    && (IsCloser(t[j]) ==> Match(t, i, j))
  }

  /** The promise of ReverseCloseExpression when it finds a start. */
  ghost predicate OpenedAt(lines: seq<string>, l: nat, p: nat, startLine: nat, startPos: int)
    requires l < |lines|
  {
    && startLine <= l && 0 <= startPos < |lines[startLine]|
    && Opens(Flatten(lines), At(lines, startLine, startPos), At(lines, l, p))
  }

  lemma {:induction false} NestedFromMirror(t: string, i: nat, j: nat)
    requires i <= j <= |t| && Nested(Mirror(t)[|t| - j..|t| - i])
    ensures Nested(t[i..j])
  {
    MirrorSlice(t, i, j);
    NestedMirror(Mirror(t[i..j]));
    MirrorTwice(t[i..j]);
  }

  lemma {:induction false} OpensFromMirror(t: string, i: int, j: int)
    requires 0 <= i < |t| && 0 <= j < |t| && Encloses(Mirror(t), |t| - 1 - j, |t| - i)
    ensures Opens(t, i, j)
  {
    NestedFromMirror(t, i, j + 1);
    MirrorAt(t, |t| - 1 - j);
    if IsCloser(t[j]) { MatchMirror(t, i, j); }
  }

  lemma {:induction false} OpenedFromClosed(lines: seq<string>, l: nat, p: nat, m: nat, q: nat)
    requires m <= l < |lines| && p < |lines[l]| && q < |lines[m]|
    requires ClosedAt(MirrorLines(lines), |lines| - 1 - l, |lines[l]| - 1 - p, |lines| - 1 - m, |lines[m]| - q)
    ensures OpenedAt(lines, l, p, m, q)
  {
    MirrorPlaces(lines, l, p, m, q);
    OpensFromMirror(Flatten(lines), At(lines, m, q), At(lines, l, p));
  }

  lemma {:induction false} MirrorPlaces(lines: seq<string>, l: nat, p: nat, m: nat, q: nat)
    requires m <= l < |lines| && p < |lines[l]| && q < |lines[m]|
    ensures Flatten(MirrorLines(lines)) == Mirror(Flatten(lines))
    ensures At(MirrorLines(lines), |lines| - 1 - l, |lines[l]| - 1 - p) == |Flatten(lines)| - At(lines, l, p) - 1
    ensures At(MirrorLines(lines), |lines| - 1 - m, |lines[m]| - q) == |Flatten(lines)| - At(lines, m, q)
    ensures At(lines, l, p) < |Flatten(lines)| && At(lines, m, q) < |Flatten(lines)|
    ensures MirrorLines(lines)[|lines| - 1 - l][|lines[l]| - 1 - p] == Flip(lines[l][p])
  {
    MirrorAt(lines[l], |lines[l]| - 1 - p);
    FlattenMirror(lines);
    AtMirror(lines, l, p + 1);
    AtMirror(lines, m, q);
    CharAt(lines, l, p);
    CharAt(lines, m, q);
  }

  lemma {:induction false} NothingToOpen(t: string, j: nat, i: nat)
    requires j < |t| && i == |t| - 1 - j
    requires forall k :: !Match(Mirror(t), i, k)
    ensures forall k :: !Match(t, k, j)
  {
    forall k ensures !Match(t, k, j) {
      if 0 <= k < |t| {
        MatchMirror(t, k, j);
        assert !Match(Mirror(t), i, |t| - 1 - k);
      }
    }
  }

  /** The state of ReverseCloseExpression above line `m`, with stack `rest`. */
  ghost predicate SearchingBack(lines: seq<string>, l: nat, p: nat, m: nat, rest: Option<string>)
    requires m <= l < |lines| && p < |lines[l]|
  {
    && (rest.Some? ==> BackwardStack(rest.value))
    && Searching(MirrorLines(lines), |Flatten(lines)| - 1 - At(lines, l, p), |lines| - m, TurnOption(rest))
  }

  /** Line `m` of the backward search, before it is scanned from position `end`. */
  ghost predicate BackReady(lines: seq<string>, l: nat, p: nat, m: nat, end: int, st: string) {
    && m <= l < |lines| && p < |lines[l]| && -1 <= end < |lines[m]|
    && (if l == m then end == p && st == [] else end == |lines[m]| - 1)
    && (m < l ==> SearchingBack(lines, l, p, m + 1, Some(st)))
  }

  lemma {:induction false} BackReadyMirror(lines: seq<string>, l: nat, p: nat, m: nat, end: int, st: string)
    requires BackReady(lines, l, p, m, end, st)
    ensures LineReady(MirrorLines(lines), |lines| - 1 - l, |lines[l]| - 1 - p, |lines| - 1 - m, |lines[m]| - 1 - end,
                      Turn(st))
  {
    AtMirror(lines, l, p + 1);
  }

  lemma {:induction false} BackGoesOn(lines: seq<string>, l: nat, p: nat, m: nat, rest: Option<string>)
    requires m <= l < |lines| && p < |lines[l]| && (rest.Some? ==> BackwardStack(rest.value))
    requires Searching(MirrorLines(lines), At(MirrorLines(lines), |lines| - 1 - l, |lines[l]| - 1 - p), |lines| - m,
                       TurnOption(rest))
    ensures SearchingBack(lines, l, p, m, rest)
  {
    AtMirror(lines, l, p + 1);
  }

  lemma {:induction false} VerdictMirror(
    lines: seq<string>, m: nat, end: int, st: string, pos: int, rest: Option<string>)
    requires m < |lines| && -1 <= end < |lines[m]| && BackVerdict(lines[m], end, st, pos, rest)
    ensures LineVerdict(MirrorLines(lines)[|lines| - 1 - m], |lines[m]| - 1 - end, Turn(st), FromEnd(lines[m], pos),
                        TurnOption(rest))
  {
    assert MirrorLines(lines)[|lines| - 1 - m] == Mirror(lines[m]);
  }

  /** One line of the backward search is one line of the forward search in the mirror. */
  lemma {:induction false} SearchMirrorLine(
    lines: seq<string>, back: seq<string>, l: nat, p: nat, m: nat, end: int, st: string,
    pos: int, rest: Option<string>)
    requires m <= l < |lines| == |back| && p < |lines[l]| && -1 <= pos <= end < |lines[m]|
    requires LineReady(back, |lines| - 1 - l, |lines[l]| - 1 - p, |lines| - 1 - m, |lines[m]| - 1 - end, Turn(st))
    requires LineVerdict(back[|lines| - 1 - m], |lines[m]| - 1 - end, Turn(st), FromEnd(lines[m], pos),
                         TurnOption(rest))
    ensures if pos != -1 then ClosedAt(back, |lines| - 1 - l, |lines[l]| - 1 - p, |lines| - 1 - m, |lines[m]| - pos)
            else Searching(back, At(back, |lines| - 1 - l, |lines[l]| - 1 - p), |lines| - m, TurnOption(rest))
  {
    SearchLine(back, |lines| - 1 - l, |lines[l]| - 1 - p, |lines| - 1 - m, |lines[m]| - 1 - end, Turn(st),
               FromEnd(lines[m], pos), TurnOption(rest));
  }

  /** One line of the backward search. */
  lemma {:induction false} SearchBackLine(lines: seq<string>, l: nat, p: nat, m: nat, end: int, st: string,
                                          pos: int, rest: Option<string>)
    requires BackReady(lines, l, p, m, end, st) && -1 <= pos <= end
    requires BackVerdict(lines[m], end, st, pos, rest)
    requires rest.Some? ==> BackwardStack(rest.value)
    ensures if pos != -1 then OpenedAt(lines, l, p, m, pos) else SearchingBack(lines, l, p, m, rest)
  {
    BackReadyMirror(lines, l, p, m, end, st);
    VerdictMirror(lines, m, end, st, pos, rest);
    SearchMirrorLine(lines, MirrorLines(lines), l, p, m, end, st, pos, rest);
    if pos != -1 { OpenedFromClosed(lines, l, p, m, pos); } else { BackGoesOn(lines, l, p, m, rest); }
  }

  lemma {:induction false} GiveUpBack(lines: seq<string>, l: nat, p: nat, m: nat, rest: Option<string>)
    requires m <= l < |lines| && p < |lines[l]| && IsCloser(lines[l][p])
    requires SearchingBack(lines, l, p, m, rest)
    requires rest.None? || rest.value == [] || m == 0
    ensures forall i :: !Match(Flatten(lines), i, At(lines, l, p))
  {
    var back := MirrorLines(lines);
    var t, j := Flatten(lines), At(lines, l, p);
    FlattenMirror(lines);
    CharAt(lines, l, p);
    MirrorAt(t, |t| - 1 - j);
    SearchFailed(back, |t| - 1 - j, |lines| - m, TurnOption(rest));
    NothingToOpen(t, j, |t| - 1 - j);
  }

  /** One line of the backward search. */
  method SearchLineBack(lines: seq<string>, ghost l: nat, ghost p: nat, m: nat, end: int, st: string)
    returns (begin: int, rest: Option<string>)
    requires BackReady(lines, l, p, m, end, st) && BackwardStack(st)
    ensures begin == -1 || 0 <= begin < |lines[m]|
    ensures if begin != -1 then OpenedAt(lines, l, p, m, begin) else SearchingBack(lines, l, p, m, rest)
    ensures Whole(lines[m], end) ==>
              OpenOf(lines, m, end, LevelOf(Turn(st))) ==
              if begin != -1 then Some((m, begin)) else Backwards(lines, m, TurnOption(rest))
  {
    begin, rest := FindStartOfExpressionInLine(lines[m], end, st);
    if Whole(lines[m], end) { OpenLine(lines, m, end, LevelOf(Turn(st)), begin, TurnOption(rest)); }
    SearchBackLine(lines, l, p, m, end, st, begin, rest);
  }

  /** The line before; `goal` is what the whole search comes to. */
  method SearchBefore(
    lines: seq<string>, ghost l: nat, ghost p: nat, m: nat, st: string, ghost goal: Option<(nat, int)>)
    returns (begin: int, rest: Option<string>)
    requires 0 < m <= l < |lines| && p < |lines[l]| && SearchingBack(lines, l, p, m, Some(st)) && st != []
    requires goal == Backwards(lines, m, TurnOption(Some(st)))
    ensures begin == -1 || 0 <= begin < |lines[m - 1]|
    ensures if begin != -1 then OpenedAt(lines, l, p, m - 1, begin) else SearchingBack(lines, l, p, m - 1, rest)
    ensures goal == if begin != -1 then Some((m - 1, begin)) else Backwards(lines, m - 1, TurnOption(rest))
  {
    begin, rest := SearchLineBack(lines, l, p, m - 1, |lines[m - 1]| - 1, st);
  }

  /** ReverseCloseExpression: the line and the position of the opening bracket, or
      0 and -1. */
  method ReverseCloseExpression(lines: seq<string>, linenum: nat, pos: nat) returns (startLine: nat, startPos: int)
    requires linenum < |lines| && pos < |lines[linenum]|
    ensures startPos != -1 ==> OpenedAt(lines, linenum, pos, startLine, startPos)
    ensures startPos == -1 ==> startLine == 0
    ensures startPos == -1 && IsCloser(lines[linenum][pos]) ==>
              forall i :: !Match(Flatten(lines), i, At(lines, linenum, pos))
    ensures !IsCloser(lines[linenum][pos]) && lines[linenum][pos] != '>' ==> startPos == -1
    ensures IsCloser(lines[linenum][pos]) || lines[linenum][pos] == '>' ==>
              (if startPos == -1 then None else Some((startLine, startPos))) == OpenOf(lines, linenum, pos, START)
  {
    var line := lines[linenum];
    if !IsCloser(line[pos]) && line[pos] != '>' { return 0, -1; }

    var begin, rest := SearchLineBack(lines, linenum, pos, linenum, pos, []);
    ghost var goal := OpenOf(lines, linenum, pos, START);
    assert Turn([]) == [];
    if begin > -1 { return linenum, begin; }

    var l := linenum;
    while rest.Some? && rest.value != [] && l > 0
      invariant 0 <= l <= linenum
      invariant SearchingBack(lines, linenum, pos, l, rest)
      invariant goal == Backwards(lines, l, TurnOption(rest))
      decreases l
    {
      begin, rest := SearchBefore(lines, linenum, pos, l, rest.value, goal);
      l := l - 1;
      if begin > -1 { return l, begin; }
    }
    if IsCloser(line[pos]) { GiveUpBack(lines, linenum, pos, l, rest); }
    return 0, -1;
  }

  // ---- The two directions undo each other ----

  /** Closing a bracket and reopening what was found leads back to the bracket. */
  method CloseThenReverse(lines: seq<string>, linenum: nat, pos: nat)
    returns (endLine: nat, endPos: int, startLine: nat, startPos: int)
    requires linenum < |lines| && pos < |lines[linenum]| && IsOpener(lines[linenum][pos])
    ensures if exists j :: Match(Flatten(lines), At(lines, linenum, pos), j)
            then endPos != -1 && startLine == linenum && startPos == pos
            else endPos == -1 && startPos == -1
  {
    endLine, endPos := CloseExpression(lines, linenum, pos);
    startLine, startPos := 0, -1;
    if endPos != -1 {
      CharAt(lines, linenum, pos);
      CharAt(lines, endLine, endPos - 1);
      startLine, startPos := ReverseCloseExpression(lines, endLine, endPos - 1);
      OpenerUnique(Flatten(lines), At(lines, linenum, pos), At(lines, startLine, startPos),
                   At(lines, endLine, endPos - 1));
      AtInjective(lines, linenum, pos, startLine, startPos);
    }
  }

  /** Opening a closing bracket and closing what was found leads back to it. */
  method ReverseThenClose(lines: seq<string>, linenum: nat, pos: nat)
    returns (startLine: nat, startPos: int, endLine: nat, endPos: int)
    requires linenum < |lines| && pos < |lines[linenum]| && IsCloser(lines[linenum][pos])
    ensures if exists i :: Match(Flatten(lines), i, At(lines, linenum, pos))
            then startPos != -1 && endLine == linenum && endPos == pos + 1
            else startPos == -1 && endPos == -1
  {
    startLine, startPos := ReverseCloseExpression(lines, linenum, pos);
    endLine, endPos := 0, -1;
    if startPos != -1 {
      CharAt(lines, linenum, pos);
      CharAt(lines, startLine, startPos);
      endLine, endPos := CloseExpression(lines, startLine, startPos);
      CloserUnique(Flatten(lines), At(lines, startLine, startPos), At(lines, linenum, pos),
                   At(lines, endLine, endPos - 1));
      AtInjective(lines, linenum, pos, endLine, endPos - 1);
    }
  }

  // ---- _GetTextInside ----

  function Closing(open: char): (c: char)
    requires IsOpener(open)
    ensures Pairs(open, c)
  {
    Flip(open)
  }

  /** The scan of _GetTextInside so far, with the closers it still expects. */
  ghost predicate Expecting(text: string, i: nat, position: nat, stack: string)
    requires i < position <= |text|
  {
    && (forall c :: c in stack ==> IsCloser(c))
    && Find([], text[i..]) ==
       if stack == [] then Found(position - i)
       else Later(Find(Turn(stack), text[position..]), position - i)
  }

  lemma {:induction false} ExpectingNext(text: string, i: nat, position: nat, stack: string)
    requires i < position < |text| && stack != [] && Expecting(text, i, position, stack)
    ensures text[position] == Last(stack) ==> Expecting(text, i, position + 1, Front(stack))
    ensures text[position] != Last(stack) && IsCloser(text[position]) ==> Find([], text[i..]) == Stuck
    ensures IsOpener(text[position]) ==> Expecting(text, i, position + 1, stack + [Closing(text[position])])
    ensures !IsBracket(text[position]) ==> Expecting(text, i, position + 1, stack)
  {
    assert text[position..][1..] == text[position + 1..];
    TurnFront(stack);
    assert Last(stack) in stack;
    if IsOpener(text[position]) { TurnPush(stack, Closing(text[position])); }
  }

  /** _GetTextInside, once its start pattern has matched up to `start`: the text
      between the bracket before `start` and the bracket that closes it. */
  method GetTextInside(text: string, start: nat) returns (inside: Option<string>)
    requires 0 < start <= |text| && IsOpener(text[start - 1])
    ensures inside.Some? ==> exists j :: Match(text, start - 1, j) && inside.value == text[start..j]
    ensures inside.None? ==> var i := start - 1; forall j :: !Match(text, i, j)
  {
    ghost var i := start - 1;
    var stack := [Closing(text[start - 1])];
    assert text[i..][1..] == text[start..];
    assert Turn(stack) == [] + [text[i]];
    var position := start;
    while stack != [] && position < |text|
      invariant start <= position <= |text|
      invariant Expecting(text, i, position, stack)
      decreases |text| - position
    {
      ExpectingNext(text, i, position, stack);
      if text[position] == Last(stack) {
        stack := Front(stack);
      } else if IsCloser(text[position]) {
        GiveUp(text, i);
        return None;
      } else if IsOpener(text[position]) {
        stack := stack + [Closing(text[position])];
      }
      position := position + 1;
    }
    if stack != [] {
      GiveUp(text, i);
      return None;
    }
    FoundIsMatch(text, i, position);
    return Some(text[start..position - 1]);
  }

  /** _GetTextInside and FindEndOfExpressionInLine give the same answer. */
  method TextInsideAgrees(line: string, start: nat) returns (inside: Option<string>, pos: int)
    requires 0 < start <= |line| && IsOpener(line[start - 1])
    ensures inside.None? <==> pos == -1
    ensures inside.Some? ==> start < pos <= |line| && inside.value == line[start..pos - 1]
  {
    inside := GetTextInside(line, start);
    var rest;
    pos, rest := FindEndOfExpressionInLine(line, start - 1, []);
    ghost var i := start - 1;
    if pos != -1 {
      FoundIsMatch(line, i, pos);
      assert inside.Some?;
      ghost var j :| Match(line, i, j) && inside.value == line[start..j];
      CloserUnique(line, i, j, pos - 1);
    } else {
      GiveUp(line, i);
    }
  }
}
