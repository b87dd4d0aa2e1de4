/** Which `<` and `>` belong together for the matchers of build-support/cpplint.py. They keep
    `<` and `>` on one stack with the brackets and drop those that turn out to be operators.
    It comes to this: a counter for the `<` outside all brackets that were opened since, and a
    stack for the brackets; what is between brackets does not count.
 */
module AngleBrackets {
  import opened Basics
  import opened BracketText

  // ---- The regular expression \boperator\s*$ ----

  predicate IsWordChar(c: char) {
    'a' <= c <= 'z' || 'A' <= c <= 'Z' || '0' <= c <= '9' || c == '_'
  }

  /** The word "operator" ends just before position `k`. */
  predicate OperatorEndsAt(line: string, k: int)
    requires k <= |line|
  {
    && 8 <= k
    && line[k - 8] == 'o' && line[k - 7] == 'p' && line[k - 6] == 'e' && line[k - 5] == 'r'
    && line[k - 4] == 'a' && line[k - 3] == 't' && line[k - 2] == 'o' && line[k - 1] == 'r'
    && (k == 8 || !IsWordChar(line[k - 9]))
  }

  /** `line[0:i]` ends in the word "operator" and then only spaces. */
  predicate EndsInOperator(line: string, i: int)
    requires i <= |line|
  {
    exists k :: 0 <= k <= i && OperatorEndsAt(line, k) && forall m :: k <= m < i ==> IsSpace(line[m])
  }

  // ---- The expression stack ----

  /** The stack without its tentative template marks. */
  function Strip(stack: string): (r: string) {
    if stack == [] then []
    else if IsBracket(Last(stack)) then Strip(Front(stack)) + [Last(stack)]
    else Strip(Front(stack))
  }

  /** The oldest entry is a bracket, so no `<`, `>` or `;` can empty the stack. */
  predicate Anchored(stack: string) {
    stack != [] && IsBracket(stack[0])
  }

  lemma {:induction false} StripNotEmpty(stack: string)
    requires Anchored(stack)
    ensures Strip(stack) != []
    decreases |stack|
  {
    if |stack| > 1 { StripNotEmpty(Front(stack)); }
  }

  lemma {:induction false} StripPush(stack: string, c: char)
    ensures Strip(stack + [c]) == if IsBracket(c) then Strip(stack) + [c] else Strip(stack)
  {
    assert Front(stack + [c]) == stack;
  }

  lemma {:induction false} StripMembers(stack: string)
    ensures forall c :: c in Strip(stack) ==> c in stack
    decreases |stack|
  {
    if stack != [] { StripMembers(Front(stack)); }
  }

  // ---- Tokens ----

  /** What a character is to a search, from the characters next to it on its line. */
  datatype Token = Enter(c: char) | Leave(c: char) | Less | Shift | Greater | Semicolon | Plain | EndOfLine

  function TokenAt(line: string, i: nat): (t: Token)
    requires i < |line|
  {
    var c := line[i];
    if IsOpener(c) then Enter(c)
    else if IsCloser(c) then Leave(c)
    else if c == '<' then
      if i > 0 && line[i - 1] == '<' then Shift else if i > 0 && EndsInOperator(line, i) then Plain else Less
    else if c == '>' then
      if i > 0 && (line[i - 1] == '-' || EndsInOperator(line, i - 1)) then Plain else Greater
    else if c == ';' then Semicolon
    else Plain
  }

  function Lex(line: string): (ts: seq<Token>)
    ensures |ts| == |line| + 1
  {
    seq(|line|, i requires 0 <= i < |line| => TokenAt(line, i)) + [EndOfLine]
  }

  /** The row of `<` that begins here, if any, is of even length. */
  predicate EvenRow(line: string, i: nat)
    requires i <= |line|
    decreases |line| - i
  {
    if i < |line| && line[i] == '<' then !EvenRow(line, i + 1) else true
  }

  /** What a character is to a backward search: openers are left and closers entered, `>` is
      what `<` is to the other direction. A row of `<` is taken in pairs from its end. */
  function BackTokenAt(line: string, i: nat): (t: Token)
    requires i < |line|
  {
    var c := line[i];
    if IsCloser(c) then Enter(Flip(c))
    else if IsOpener(c) then Leave(Flip(c))
    else if c == '>' then if BackOperator(line, i) then Plain else Less
    else if c == '<' then if (i > 0 && line[i - 1] == '<') || EvenRow(line, i) then Plain else Greater
    else if c == ';' then Semicolon
    else Plain
  }

  /** A backward search that comes to position `i` has not split a pair of `<`. */
  predicate Whole(line: string, i: int)
    requires -1 <= i < |line|
  {
    i >= 0 && line[i] == '<' ==> EvenRow(line, i + 1)
  }

  lemma {:induction false} WholeAfter(line: string, i: nat)
    requires i < |line| && Whole(line, i)
    ensures line[i] != '<' || i == 0 || line[i - 1] != '<' ==> Whole(line, i - 1)
    ensures i > 0 && line[i - 1] != '<' ==> Whole(line, i - 2)
    ensures i > 0 && line[i] == '<' && line[i - 1] == '<' ==> BackTokenAt(line, i - 1) == Plain && Whole(line, i - 2)
  {
    if i > 0 { assert EvenRow(line, i - 1) <==> line[i - 1] != '<' || !EvenRow(line, i); }
    assert EvenRow(line, i) <==> line[i] != '<' || !EvenRow(line, i + 1);
  }

  /** "->", ">=" between spaces, or "operator>" */
  predicate BackOperator(line: string, i: nat)
    requires i < |line|
  {
    && i > 0
    && (|| line[i - 1] == '-'
        || (IsSpace(line[i - 1]) && i + 2 < |line| && line[i + 1] == '=' && IsSpace(line[i + 2]))
        || EndsInOperator(line, i))
  }

  /** The tokens in the order in which the backward search meets them. */
  function BackLex(line: string): (ts: seq<Token>)
    ensures |ts| == |line| + 1
  {
    seq(|line|, k requires 0 <= k < |line| => BackTokenAt(line, |line| - 1 - k)) + [EndOfLine]
  }

  // ---- The search ----

  /** How many `<` outside brackets, and which brackets, are open. */
  datatype Level = Level(angles: nat, brackets: string)

  datatype Search = Ends(n: nat) | Fails | GoesOn(level: Level)

  const START: Level := Level(0, [])

  function Next(lv: Level, t: Token): (r: Search) {
    match t
    case Enter(c) => GoesOn(Level(lv.angles, lv.brackets + [c]))
    case Leave(c) =>
      if lv.brackets == [] || !Pairs(Last(lv.brackets), c) then Fails
      else if |lv.brackets| == 1 && lv.angles == 0 then Ends(1)
      else GoesOn(Level(lv.angles, Front(lv.brackets)))
    case EndOfLine => if lv == START then Fails else GoesOn(lv)
    case Plain => GoesOn(lv)
    case Less => if lv.brackets != [] then GoesOn(lv) else GoesOn(Level(lv.angles + 1, []))
    case Semicolon => if lv.brackets != [] then GoesOn(lv) else Fails
    case Greater => if lv.brackets != [] || lv.angles == 0 then GoesOn(lv) else Down(lv, Ends(1))
    case Shift => if lv.brackets != [] || lv.angles == 0 then GoesOn(lv) else Down(lv, Fails)
  }

  function Down(lv: Level, last: Search): (r: Search)
    requires lv.angles > 0
  {
    if lv.angles == 1 then last else GoesOn(lv.(angles := lv.angles - 1))
  }

  function Past(k: nat, r: Search): (r': Search) {
    if r.Ends? then Ends(k + r.n) else r
  }

  function SearchIn(lv: Level, ts: seq<Token>): (r: Search)
    ensures r.Ends? ==> 0 < r.n <= |ts|
    decreases |ts|
  {
    if ts == [] then GoesOn(lv)
    else
      var r := Next(lv, ts[0]);
      if r.GoesOn? then Past(1, SearchIn(r.level, ts[1..])) else r
  }

  lemma {:induction false} SearchSplit(lv: Level, u: seq<Token>, v: seq<Token>)
    ensures SearchIn(lv, u + v) ==
            if SearchIn(lv, u).GoesOn? then Past(|u|, SearchIn(SearchIn(lv, u).level, v)) else SearchIn(lv, u)
    decreases |u|
  {
    if u == [] {
      assert u + v == v;
    } else {
      assert (u + v)[0] == u[0] && (u + v)[1..] == u[1..] + v;
      var r := Next(lv, u[0]);
      if r.GoesOn? { SearchSplit(r.level, u[1..], v); }
    }
  }

  lemma {:induction false} SearchNext(lv: Level, ts: seq<Token>, k: nat, i: nat)
    requires k <= i < |ts| && SearchIn(lv, ts[k..i]).GoesOn?
    ensures SearchIn(lv, ts[k..i + 1]) == Past(i - k, Next(SearchIn(lv, ts[k..i]).level, ts[i]))
  {
    var u, t := ts[k..i], ts[i];
    assert ts[k..i + 1] == u + [t] && [t][1..] == [];
    SearchSplit(lv, u, [t]);
  }

  /** What a search in one line has to report; `rest` is the stack at the end of the line. */
  ghost predicate Tells(r: Search, start: int, pos: int, rest: Option<string>) {
    match r
    case Ends(n) => pos == start + n && rest.None?
    case Fails => pos == -1 && (rest.None? || rest == Some([]))
    case GoesOn(lv) => pos == -1 && rest.Some? && rest.value != [] && LevelOf(rest.value) == lv
  }

  /** The search stopped at token `i`. */
  lemma {:induction false} StoppedAt(lv: Level, ts: seq<Token>, k: nat, i: nat)
    requires k <= i < |ts| && SearchIn(lv, ts[k..i]).GoesOn?
    requires !Next(SearchIn(lv, ts[k..i]).level, ts[i]).GoesOn?
    ensures SearchIn(lv, ts[k..]) == Past(i - k, Next(SearchIn(lv, ts[k..i]).level, ts[i]))
  {
    SearchNext(lv, ts, k, i);
    assert ts[k..] == ts[k..i + 1] + ts[i + 1..];
    SearchSplit(lv, ts[k..i + 1], ts[i + 1..]);
  }

  // ---- The stack ----

  /** How many marks are below the oldest bracket. */
  function Lead(stack: string): (n: nat)
    ensures n <= |stack|
  {
    if stack == [] || IsBracket(stack[0]) then 0 else 1 + Lead(stack[1..])
  }

  /** What a stack stands for. */
  function LevelOf(stack: string): (lv: Level) {
    Level(Lead(stack), Strip(stack))
  }

  lemma {:induction false} LeadPush(stack: string, c: char)
    ensures Lead(stack + [c]) == if Strip(stack) == [] && !IsBracket(c) then Lead(stack) + 1 else Lead(stack)
    ensures Strip(stack) == [] <==> Lead(stack) == |stack|
    decreases |stack|
  {
    if stack != [] {
      assert (stack + [c])[1..] == stack[1..] + [c];
      LeadPush(stack[1..], c);
      StripFirst(stack);
    }
  }

  lemma {:induction false} StripFirst(stack: string)
    requires stack != []
    ensures Strip(stack) == if IsBracket(stack[0]) then [stack[0]] + Strip(stack[1..]) else Strip(stack[1..])
    decreases |stack|
  {
    if |stack| > 1 {
      assert Front(stack)[1..] == Front(stack[1..]) && Last(stack[1..]) == Last(stack);
      StripFirst(Front(stack));
    } else {
      assert Front(stack) == [] && stack[1..] == [];
    }
  }

  /** The top of the stack is taken off. */
  lemma {:induction false} LevelPop(stack: string)
    requires stack != []
    ensures Strip(stack) == [] ==> Lead(stack) == |stack|
    ensures LevelOf(Front(stack)) ==
            if IsBracket(Last(stack)) then Level(Lead(stack), Front(Strip(stack)))
            else if Strip(stack) != [] then LevelOf(stack)
            else Level(Lead(stack) - 1, [])
    ensures IsBracket(Last(stack)) ==> Strip(stack) != [] && Last(Strip(stack)) == Last(stack)
  {
    assert stack == Front(stack) + [Last(stack)];
    LeadPush(Front(stack), Last(stack));
    StripPush(Front(stack), Last(stack));
    LeadPush(stack, '<');
  }

  /** Pending marks on top are dropped: all of them if there is no bracket, else none that
      count. */
  lemma {:induction false} LevelDrop(stack: string, r: string)
    requires r <= stack && Strip(r) == Strip(stack) && (r != [] ==> IsBracket(Last(r)))
    requires forall m :: |r| <= m < |stack| ==> !IsBracket(stack[m])
    ensures Strip(stack) == [] ==> r == []
    ensures Strip(stack) != [] ==> r != [] && LevelOf(r) == LevelOf(stack)
    decreases |stack|
  {
    if r != [] { LevelPop(r); }
    if r != stack {
      assert r <= Front(stack) && Last(stack) == stack[|stack| - 1];
      LevelPop(stack);
      LevelDrop(Front(stack), r);
    }
  }

  /** A bracket is pushed. */
  lemma {:induction false} EnterSteps(stack: string, c: char)
    requires IsOpener(c)
    ensures Next(LevelOf(stack), Enter(c)) == GoesOn(LevelOf(stack + [c]))
  {
    LeadPush(stack, c);
    StripPush(stack, c);
  }

  /** Pending marks are dropped, and then a closing bracket meets the top of the stack. */
  lemma {:induction false} LeaveSteps(stack: string, r: string, c: char)
    requires r <= stack && Strip(r) == Strip(stack) && (r != [] ==> IsBracket(Last(r)))
    requires forall m :: |r| <= m < |stack| ==> !IsBracket(stack[m])
    ensures Next(LevelOf(stack), Leave(c)) ==
            if r == [] || !Pairs(Last(r), c) then Fails
            else if Front(r) == [] then Ends(1)
            else GoesOn(LevelOf(Front(r)))
  {
    LevelDrop(stack, r);
    if r != [] {
      LevelPop(r);
      LevelEmpty(Front(r));
    }
  }

  lemma {:induction false} LessSteps(stack: string)
    ensures Next(LevelOf(stack), Less) == GoesOn(LevelOf(stack + ['<']))
  {
    LeadPush(stack, '<');
    StripPush(stack, '<');
  }

  /** `>` and the second half of `<<` take a `<` off the stack, if that is on top. */
  lemma {:induction false} GreaterSteps(stack: string)
    ensures stack == [] || IsBracket(Last(stack)) ==>
              && Next(LevelOf(stack), Greater) == GoesOn(LevelOf(stack))
              && Next(LevelOf(stack), Shift) == GoesOn(LevelOf(stack))
    ensures stack != [] && !IsBracket(Last(stack)) ==>
              var rest := GoesOn(LevelOf(Front(stack)));
              && Next(LevelOf(stack), Greater) == (if Front(stack) == [] then Ends(1) else rest)
              && Next(LevelOf(stack), Shift) == if Front(stack) == [] then Fails else rest
  {
    if stack != [] {
      LevelPop(stack);
      LevelEmpty(Front(stack));
    }
  }

  lemma {:induction false} SemicolonSteps(stack: string, r: string)
    requires r <= stack && Strip(r) == Strip(stack) && (r != [] ==> IsBracket(Last(r)))
    requires forall m :: |r| <= m < |stack| ==> !IsBracket(stack[m])
    ensures Next(LevelOf(stack), Semicolon) == if r == [] then Fails else GoesOn(LevelOf(r))
  {
    LevelDrop(stack, r);
  }

  lemma {:induction false} LevelEmpty(stack: string)
    ensures LevelOf(stack) == START <==> stack == []
  {
    if stack != [] { LevelPop(stack); }
  }

  // ---- Over several lines ----

  /** Where the search goes to an end: the line, and the position just past the end. */
  function CloseOf(lines: seq<string>, l: nat, p: nat, lv: Level): (r: Option<(nat, nat)>)
    requires l < |lines| && p <= |lines[l]|
    decreases |lines| - l
  {
    match SearchIn(lv, Lex(lines[l])[p..])
    case Ends(n) => Some((l, p + n))
    case Fails => None
    case GoesOn(lv') => if l + 1 < |lines| then CloseOf(lines, l + 1, 0, lv') else None
  }

  /** The same backwards, from position `e` on: the line and the position of the other end. */
  function OpenOf(lines: seq<string>, l: nat, e: int, lv: Level): (r: Option<(nat, int)>)
    requires l < |lines| && -1 <= e < |lines[l]|
    decreases l
  {
    match SearchIn(lv, BackLex(lines[l])[|lines[l]| - 1 - e..])
    case Ends(n) => Some((l, e + 1 - n))
    case Fails => None
    case GoesOn(lv') => if l > 0 then OpenOf(lines, l - 1, |lines[l - 1]| - 1, lv') else None
  }

  lemma {:induction false} EndsAtMark(lv: Level, ts: seq<Token>)
    requires SearchIn(lv, ts).Ends?
    ensures var last := ts[SearchIn(lv, ts).n - 1]; last.Leave? || last.Greater?
    decreases |ts|
  {
    var r := Next(lv, ts[0]);
    if r.GoesOn? { EndsAtMark(r.level, ts[1..]); }
  }

  /** A forward search only ever ends at a closing bracket or at a `>`, and never at that of
      `->` or of an operator function. */
  lemma {:induction false} ClosesAtMark(lines: seq<string>, l: nat, p: nat, lv: Level)
    requires l < |lines| && p <= |lines[l]| && CloseOf(lines, l, p, lv).Some?
    ensures var (m, e) := CloseOf(lines, l, p, lv).value;
            && l <= m < |lines| && 0 < e <= |lines[m]|
            && (IsCloser(lines[m][e - 1]) ||
                (lines[m][e - 1] == '>' &&
                 (e == 1 || (lines[m][e - 2] != '-' && !EndsInOperator(lines[m], e - 2)))))
    decreases |lines| - l
  {
    var ts := Lex(lines[l])[p..];
    var r := SearchIn(lv, ts);
    if r.Ends? {
      EndsAtMark(lv, ts);
      assert ts[r.n - 1] == Lex(lines[l])[p + r.n - 1];
    } else {
      ClosesAtMark(lines, l + 1, 0, r.level);
    }
  }

  lemma {:induction false} BackLexAt(line: string, e: int, n: nat)
    requires -1 <= e < |line| && 0 < n <= |BackLex(line)[|line| - 1 - e..]|
    ensures BackLex(line)[|line| - 1 - e..][n - 1] == if n <= e + 1 then BackTokenAt(line, e + 1 - n) else EndOfLine
  {
    var k := |line| - 1 - e + (n - 1);
    assert BackLex(line)[|line| - 1 - e..][n - 1] == BackLex(line)[k];
    if n <= e + 1 { assert |line| - 1 - k == e + 1 - n; }
  }

  /** A backward search only ever ends at an opening bracket or at a `<` that does not follow
      another one. */
  lemma {:induction false} OpensAtMark(lines: seq<string>, l: nat, e: int, lv: Level)
    requires l < |lines| && -1 <= e < |lines[l]| && OpenOf(lines, l, e, lv).Some?
    ensures var (m, b) := OpenOf(lines, l, e, lv).value;
            && m <= l && 0 <= b < |lines[m]|
            && (IsOpener(lines[m][b]) || (lines[m][b] == '<' && (b == 0 || lines[m][b - 1] != '<')))
    decreases l
  {
    var ts := BackLex(lines[l])[|lines[l]| - 1 - e..];
    var r := SearchIn(lv, ts);
    if r.Ends? {
      EndsAtMark(lv, ts);
      BackLexAt(lines[l], e, r.n);
    } else {
      OpensAtMark(lines, l - 1, |lines[l - 1]| - 1, r.level);
    }
  }

  lemma {:induction false} CloseStep(lines: seq<string>, l: nat, p: nat, lv: Level)
    requires l < |lines| && p < |lines[l]|
    ensures CloseOf(lines, l, p, lv) ==
            match Next(lv, TokenAt(lines[l], p))
            case Ends(n) => Some((l, p + n))
            case Fails => None
            case GoesOn(lv') => CloseOf(lines, l, p + 1, lv')
  {
    var ts := Lex(lines[l]);
    assert ts[p..][1..] == ts[p + 1..] && ts[p..][0] == TokenAt(lines[l], p);
  }

  /** A forward search outside brackets, with `n` of `<` open, counts: `<` opens one more, the
      second of `<<` takes it back, `>` closes one, and those of `->` and of operator
      functions do nothing. */
  lemma {:induction false} AngleStep(lines: seq<string>, l: nat, p: nat, n: nat)
    requires l < |lines| && p < |lines[l]| && n > 0
    ensures var line, now := lines[l], CloseOf(lines, l, p, Level(n, []));
            var afterOperator := exists k :: 0 <= k <= p && OperatorEndsAt(line, k) && AllSpaces(line, k, p);
            var ofOperator := exists k :: 0 <= k < p && OperatorEndsAt(line, k) && AllSpaces(line, k, p - 1);
            && (line[p] == '<' && p > 0 && line[p - 1] == '<' ==>
                  now == if n == 1 then None else CloseOf(lines, l, p + 1, Level(n - 1, [])))
            && (line[p] == '<' && (p == 0 || line[p - 1] != '<') ==>
                  now == CloseOf(lines, l, p + 1, Level(if afterOperator then n else n + 1, [])))
            && (line[p] == '>' && p > 0 && (line[p - 1] == '-' || ofOperator) ==>
                  now == CloseOf(lines, l, p + 1, Level(n, [])))
            && (line[p] == '>' && (p == 0 || (line[p - 1] != '-' && !ofOperator)) ==>
                  now == if n == 1 then Some((l, p + 1)) else CloseOf(lines, l, p + 1, Level(n - 1, [])))
            && (line[p] == ';' ==> now.None?)
  {
    CloseStep(lines, l, p, Level(n, []));
  }

  lemma {:induction false} OpenStep(lines: seq<string>, l: nat, e: nat, lv: Level)
    requires l < |lines| && e < |lines[l]|
    ensures OpenOf(lines, l, e, lv) ==
            match Next(lv, BackTokenAt(lines[l], e))
            case Ends(n) => Some((l, e + 1 - n))
            case Fails => None
            case GoesOn(lv') => OpenOf(lines, l, e - 1, lv')
  {
    var ts, k := BackLex(lines[l]), |lines[l]| - 1 - e;
    assert ts[k..][1..] == ts[k + 1..] && ts[k..][0] == BackTokenAt(lines[l], e);
  }

  /** A backward search outside brackets, with `n` of `>` open: `>` opens one more, except in
      `->`, in `>=` between spaces and in operator functions, and `;` gives up. */
  lemma {:induction false} BackGreaterStep(lines: seq<string>, l: nat, e: nat, n: nat)
    requires l < |lines| && e < |lines[l]| && n > 0
    ensures var line, now := lines[l], OpenOf(lines, l, e, Level(n, []));
            var afterOperator := exists k :: 0 <= k <= e && OperatorEndsAt(line, k) && AllSpaces(line, k, e);
            var comparison := 0 < e < |line| - 2 && IsSpace(line[e - 1]) && line[e + 1] == '=' && IsSpace(line[e + 2]);
            var excepted := e > 0 && (line[e - 1] == '-' || comparison || afterOperator);
            && (line[e] == '>' ==> now == OpenOf(lines, l, e - 1, Level(if excepted then n else n + 1, [])))
            && (line[e] == ';' ==> now.None?)
  {
    OpenStep(lines, l, e, Level(n, []));
  }

  /** `<` closes one, and `<<` is passed over. */
  lemma {:induction false} BackLessStep(lines: seq<string>, l: nat, e: nat, n: nat)
    requires l < |lines| && e < |lines[l]| && n > 0 && lines[l][e] == '<' && Whole(lines[l], e)
    ensures OpenOf(lines, l, e, Level(n, [])) ==
            if e > 0 && lines[l][e - 1] == '<' then OpenOf(lines, l, e - 2, Level(n, []))
            else if n == 1 then Some((l, e))
            else OpenOf(lines, l, e - 1, Level(n - 1, []))
  {
    BackLessToken(lines[l], e);
    OpenAt(lines, l, e, Level(n, []), BackTokenAt(lines[l], e));
    if e > 0 && lines[l][e - 1] == '<' { OpenAt(lines, l, e - 1, Level(n, []), Plain); }
  }

  lemma {:induction false} BackLessToken(line: string, e: nat)
    requires e < |line| && line[e] == '<' && Whole(line, e)
    ensures BackTokenAt(line, e) == if e > 0 && line[e - 1] == '<' then Plain else Greater
    ensures e > 0 && line[e - 1] == '<' ==> BackTokenAt(line, e - 1) == Plain
  {
    WholeAfter(line, e);
    assert EvenRow(line, e) <==> !EvenRow(line, e + 1);
  }

  lemma {:induction false} OpenAt(lines: seq<string>, l: nat, e: nat, lv: Level, t: Token)
    requires l < |lines| && e < |lines[l]| && BackTokenAt(lines[l], e) == t
    ensures OpenOf(lines, l, e, lv) ==
            match Next(lv, t)
            case Ends(n) => Some((l, e + 1 - n))
            case Fails => None
            case GoesOn(lv') => OpenOf(lines, l, e - 1, lv')
  {
    OpenStep(lines, l, e, lv);
  }

  predicate AllSpaces(line: string, k: nat, i: nat)
    requires i <= |line|
  {
    forall m :: k <= m < i ==> IsSpace(line[m])
  }

  /** What is left to search before line `l` once it was searched. */
  function Backwards(lines: seq<string>, l: nat, rest: Option<string>): (r: Option<(nat, int)>)
    requires l < |lines|
  {
    if rest.Some? && rest.value != [] && l > 0
    then OpenOf(lines, l - 1, |lines[l - 1]| - 1, LevelOf(rest.value))
    else None
  }

  /** What is left to search once line `l` was searched. */
  function Onwards(lines: seq<string>, l: nat, rest: Option<string>): (r: Option<(nat, nat)>)
    requires l < |lines|
  {
    if rest.Some? && rest.value != [] && l + 1 < |lines| then CloseOf(lines, l + 1, 0, LevelOf(rest.value)) else None
  }

  /** One line of a forward search. */
  lemma {:induction false} CloseLine(lines: seq<string>, l: nat, p: nat, lv: Level, end: int, rest: Option<string>)
    requires l < |lines| && p <= |lines[l]| && Tells(SearchIn(lv, Lex(lines[l])[p..]), p, end, rest)
    ensures CloseOf(lines, l, p, lv) == if end != -1 then Some((l, end)) else Onwards(lines, l, rest)
  {
  }

  /** One line of a backward search; the stack is as the mirrored line has it. */
  lemma {:induction false} OpenLine(lines: seq<string>, l: nat, e: int, lv: Level, begin: int, rest: Option<string>)
    requires l < |lines| && -1 <= e < |lines[l]| && -1 <= begin <= e
    requires Tells(SearchIn(lv, BackLex(lines[l])[|lines[l]| - 1 - e..]), |lines[l]| - 1 - e,
                   if begin == -1 then -1 else |lines[l]| - begin, rest)
    ensures OpenOf(lines, l, e, lv) == if begin != -1 then Some((l, begin)) else Backwards(lines, l, rest)
  {
  }
}
