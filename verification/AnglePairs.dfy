/** Which `<` and `>` the matchers of build-support/cpplint.py pair up, said without a stack: in
    between, brackets are well nested, no `;` is outside brackets, and the marks outside
    brackets are balanced. And when closing and reopening leads back.
 */
module AnglePairs {
  import opened Basics
  import opened BracketText
  import opened AngleBrackets
  import opened ExpressionMatcher

  // ---- Pairs ----

  /** Position `k` is outside all brackets that were opened in the text. */
  ghost predicate Outside(w: string, k: nat)
    requires k <= |w|
  {
    Run([], w[..k]) == Some([])
  }

  function Effect(t: Token): (e: int) {
    if t == Less then 1 else if t == Greater || t == Shift then -1 else 0
  }

  /** How many marks outside brackets are open after the first `k` characters. */
  ghost function Height(w: string, ts: seq<Token>, k: nat): (h: int)
    requires k <= |w| == |ts|
    decreases k
  {
    if k == 0 then 0 else Height(w, ts, k - 1) + if Outside(w, k - 1) then Effect(ts[k - 1]) else 0
  }

  /** The tokens are those of the text, as far as brackets go. */
  ghost predicate Reads(w: string, ts: seq<Token>) {
    && |ts| == |w|
    && forall m :: 0 <= m < |w| ==>
         if IsOpener(w[m]) then ts[m] == Enter(w[m])
         else if IsCloser(w[m]) then ts[m] == Leave(w[m])
         else !ts[m].Enter? && !ts[m].Leave? && !ts[m].EndOfLine?
  }

  ghost predicate NoSemicolon(w: string, ts: seq<Token>, k: nat)
    requires k <= |w| == |ts|
  {
    forall m :: 0 <= m < k && Outside(w, m) ==> ts[m] != Semicolon
  }

  /** The text goes from a `<` to the `>` that belongs to it. */
  ghost predicate AnglePair(w: string, ts: seq<Token>) {
    && |w| == |ts| && |w| > 0 && ts[0] == Less && ts[|w| - 1] == Greater
    && Nested(w) && NoSemicolon(w, ts, |w|)
    && Height(w, ts, |w|) == 0 && forall k :: 0 < k < |w| ==> Height(w, ts, k) > 0
  }

  // ---- The search finds them ----

  /** The search is still under way after `k` characters. */
  ghost predicate Underway(w: string, ts: seq<Token>, k: nat)
    requires k <= |w| == |ts|
  {
    && Run([], w[..k]).Some? && NoSemicolon(w, ts, k)
    && forall j :: 0 < j <= k ==> Height(w, ts, j) > 0
  }

  lemma {:induction false} RunAt(w: string, k: nat)
    requires k < |w|
    ensures Run([], w[..k + 1]) ==
            if Run([], w[..k]).None? then None
            else
              var st := Run([], w[..k]).value;
              if IsOpener(w[k]) then Some(st + [w[k]])
              else if IsCloser(w[k]) then if st != [] && Pairs(Last(st), w[k]) then Some(Front(st)) else None
              else Some(st)
  {
    assert w[0..k + 1] == w[..k + 1] && w[0..k] == w[..k];
    RunNext([], w, 0, k);
    if Run([], w[..k]).Some? { RunOne(Run([], w[..k]).value, w[k]); }
  }

  lemma {:induction false} SearchTo(w: string, ts: seq<Token>, k: nat)
    requires Reads(w, ts) && 0 < k <= |w| && ts[0] == Less
    ensures Underway(w, ts, k) ==> SearchIn(START, ts[..k]) == GoesOn(Level(Height(w, ts, k), Run([], w[..k]).value))
    ensures !Underway(w, ts, k) ==> !SearchIn(START, ts[..k]).GoesOn?
    decreases k
  {
    assert Run([], w[..0]) == Some([]) && Outside(w, 0) && Height(w, ts, 1) == Height(w, ts, 0) + 1 == 1;
    if k == 1 {
      RunAt(w, 0);
      assert ts[..1] == [Less] && [Less][1..] == [];
    } else {
      SearchTo(w, ts, k - 1);
      if Underway(w, ts, k - 1) {
        assert ts[0..k - 1] == ts[..k - 1] && ts[0..k] == ts[..k];
        SearchNext(START, ts, 0, k - 1);
        SearchStep(w, ts, k - 1);
      } else {
        SearchSplit(START, ts[..k - 1], [ts[k - 1]]);
        assert ts[..k] == ts[..k - 1] + [ts[k - 1]];
        NotUnderway(w, ts, k - 1);
      }
    }
  }

  lemma {:induction false} NotUnderway(w: string, ts: seq<Token>, k: nat)
    requires k < |w| == |ts| && !Underway(w, ts, k)
    ensures !Underway(w, ts, k + 1)
  {
    RunAt(w, k);
  }

  lemma {:induction false} SearchStep(w: string, ts: seq<Token>, k: nat)
    requires Reads(w, ts) && 0 < k < |w| && Underway(w, ts, k)
    ensures var r := Next(Level(Height(w, ts, k), Run([], w[..k]).value), ts[k]);
            && (r.GoesOn? <==> Underway(w, ts, k + 1))
            && (r.GoesOn? ==> r.level == Level(Height(w, ts, k + 1), Run([], w[..k + 1]).value))
            && (r.Ends? <==> ts[k] == Greater && Outside(w, k) && Height(w, ts, k) == 1)
            && (r.Ends? ==> r == Ends(1))
  {
    RunAt(w, k);
    UnderwayNext(w, ts, k);
    assert Height(w, ts, k + 1) == Height(w, ts, k) + if Outside(w, k) then Effect(ts[k]) else 0;
  }

  lemma {:induction false} UnderwayNext(w: string, ts: seq<Token>, k: nat)
    requires k < |w| == |ts| && Underway(w, ts, k)
    ensures Underway(w, ts, k + 1) <==>
              && Run([], w[..k + 1]).Some? && Height(w, ts, k + 1) > 0
              && !(Outside(w, k) && ts[k] == Semicolon)
  {
  }

  lemma {:induction false} EndsAt(lv: Level, ts: seq<Token>)
    requires SearchIn(lv, ts).Ends?
    ensures var n := SearchIn(lv, ts).n;
            && 0 < n <= |ts| && SearchIn(lv, ts[..n - 1]).GoesOn?
            && Next(SearchIn(lv, ts[..n - 1]).level, ts[n - 1]) == Ends(1)
    decreases |ts|
  {
    var n, r := SearchIn(lv, ts).n, Next(lv, ts[0]);
    if r.GoesOn? {
      EndsAt(r.level, ts[1..]);
      assert ts[..n - 1][0] == ts[0] && ts[..n - 1][1..] == ts[1..][..n - 2];
    } else {
      assert ts[..0] == [];
    }
  }

  lemma {:induction false} HeightPrefix(w: string, ts: seq<Token>, n: nat, k: nat)
    requires k <= n <= |w| == |ts|
    ensures Height(w[..n], ts[..n], k) == Height(w, ts, k)
    ensures Outside(w[..n], k) <==> Outside(w, k)
    decreases k
  {
    assert w[..n][..k] == w[..k];
    if k > 0 { HeightPrefix(w, ts, n, k - 1); }
  }

  /** A pair, told from the whole text. */
  lemma {:induction false} PairAt(w: string, ts: seq<Token>, n: nat)
    requires Reads(w, ts) && 0 < n <= |w| && ts[0] == Less
    ensures AnglePair(w[..n], ts[..n]) <==>
              1 < n && Underway(w, ts, n - 1) && ts[n - 1] == Greater && Outside(w, n - 1) && Height(w, ts, n - 1) == 1
  {
    var u, us := w[..n], ts[..n];
    forall k | 0 <= k <= n ensures Height(u, us, k) == Height(w, ts, k) && (Outside(u, k) <==> Outside(w, k)) {
      HeightPrefix(w, ts, n, k);
    }
    RunAt(w, n - 1);
    NestedIffRun(u);
    assert u[..n] == u;
    assert Height(w, ts, n) == Height(w, ts, n - 1) + if Outside(w, n - 1) then Effect(ts[n - 1]) else 0;
    assert Height(w, ts, 0) == 0;
  }

  /** The search from a `<` ends at the `>` that belongs to it, and nowhere else. */
  lemma {:induction false} PairIff(w: string, ts: seq<Token>, n: nat)
    requires Reads(w, ts) && w != [] && ts[0] == Less
    ensures SearchIn(START, ts) == Ends(n) <==> 0 < n <= |w| && AnglePair(w[..n], ts[..n])
  {
    if SearchIn(START, ts) == Ends(n) {
      EndsAt(START, ts);
      assert n != 1;
      PairAt(w, ts, n);
      SearchTo(w, ts, n - 1);
      SearchStep(w, ts, n - 1);
    }
    if 0 < n <= |w| && AnglePair(w[..n], ts[..n]) {
      PairAt(w, ts, n);
      SearchTo(w, ts, n - 1);
      SearchStep(w, ts, n - 1);
      assert ts[0..n - 1] == ts[..n - 1] && ts[0..] == ts;
      StoppedAt(START, ts, 0, n - 1);
    }
  }

  // ---- Over several lines ----

  /** Lines of tokens, each with its end. */
  ghost predicate Ended(tls: seq<seq<Token>>) {
    forall l :: 0 <= l < |tls| ==> tls[l] != [] && Last(tls[l]) == EndOfLine
  }

  /** All tokens but the ends of lines. */
  function Text(tls: seq<seq<Token>>): (ts: seq<Token>)
    requires forall l :: 0 <= l < |tls| ==> tls[l] != []
  {
    if tls == [] then [] else Front(tls[0]) + Text(tls[1..])
  }

  function Place(tls: seq<seq<Token>>, l: nat, p: int): (r: int)
    requires l <= |tls| && forall l :: 0 <= l < |tls| ==> tls[l] != []
  {
    |Text(tls[..l])| + p
  }

  function CloseIn(tls: seq<seq<Token>>, l: nat, p: nat, lv: Level): (r: Option<(nat, nat)>)
    requires l < |tls| && p < |tls[l]|
    requires forall l :: 0 <= l < |tls| ==> tls[l] != []
    decreases |tls| - l
  {
    match SearchIn(lv, tls[l][p..])
    case Ends(n) => Some((l, p + n))
    case Fails => None
    case GoesOn(lv') => if l + 1 < |tls| then CloseIn(tls, l + 1, 0, lv') else None
  }

  lemma {:induction false} NotStart(lv: Level, ts: seq<Token>)
    requires (lv != START || (ts != [] && ts[0] == Less)) && SearchIn(lv, ts).GoesOn?
    ensures SearchIn(lv, ts).level != START
    decreases |ts|
  {
    if ts != [] { NotStart(Next(lv, ts[0]).level, ts[1..]); }
  }

  lemma {:induction false} PlaceNext(tls: seq<seq<Token>>, l: nat)
    requires l < |tls| && Ended(tls)
    ensures Place(tls, l + 1, 0) == Place(tls, l, |tls[l]| - 1)
  {
    TextConcat(tls[..l], [tls[l]]);
    assert tls[..l + 1] == tls[..l] + [tls[l]] && [tls[l]][1..] == [];
    assert Text([tls[l]]) == Front(tls[l]) + [];
  }

  lemma {:induction false} TextConcat(u: seq<seq<Token>>, v: seq<seq<Token>>)
    requires forall l :: 0 <= l < |u| ==> u[l] != []
    requires forall l :: 0 <= l < |v| ==> v[l] != []
    ensures Text(u + v) == Text(u) + Text(v)
    decreases |u|
  {
    if u == [] {
      assert u + v == v;
    } else {
      assert (u + v)[1..] == u[1..] + v;
      TextConcat(u[1..], v);
    }
  }

  /** The tokens from a place on. */
  function From(tls: seq<seq<Token>>, l: nat, p: nat): (ts: seq<Token>)
    requires l < |tls| && p < |tls[l]|
    requires forall l :: 0 <= l < |tls| ==> tls[l] != []
  {
    tls[l][p..|tls[l]| - 1] + Text(tls[l + 1..])
  }

  /** One line of it, with its end and without. */
  lemma {:induction false} LineSearch(line: seq<Token>, p: nat, lv: Level)
    requires line != [] && Last(line) == EndOfLine && p < |line|
    requires lv != START || line[p] == Less
    ensures SearchIn(lv, line[p..]) == SearchIn(lv, line[p..|line| - 1])
    ensures SearchIn(lv, line[p..]).GoesOn? ==> SearchIn(lv, line[p..]).level != START
  {
    var u := line[p..|line| - 1];
    assert line[p..] == u + [EndOfLine] && [EndOfLine][1..] == [];
    SearchSplit(lv, u, [EndOfLine]);
    if SearchIn(lv, u).GoesOn? { NotStart(lv, u); }
  }

  lemma {:induction false} FromSplits(tls: seq<seq<Token>>, l: nat, p: nat, lv: Level)
    requires l < |tls| && p < |tls[l]| && Ended(tls)
    ensures var r := SearchIn(lv, tls[l][p..|tls[l]| - 1]);
            SearchIn(lv, From(tls, l, p)) ==
            if !r.GoesOn? || l + 1 == |tls| then r
            else Past(|tls[l]| - 1 - p, SearchIn(r.level, From(tls, l + 1, 0)))
  {
    var rest := Text(tls[l + 1..]);
    SearchSplit(lv, tls[l][p..|tls[l]| - 1], rest);
    if l + 1 < |tls| { assert tls[l + 1..][1..] == tls[l + 2..] && From(tls, l + 1, 0) == rest; }
  }

  /** Ends of lines do not matter to a search that is under way. */
  lemma {:induction false} CloseInText(tls: seq<seq<Token>>, l: nat, p: nat, lv: Level)
    requires l < |tls| && p < |tls[l]| && Ended(tls) && (lv != START || tls[l][p] == Less)
    ensures CloseIn(tls, l, p, lv).Some? <==> SearchIn(lv, From(tls, l, p)).Ends?
    ensures CloseIn(tls, l, p, lv).Some? ==>
              var (m, q) := CloseIn(tls, l, p, lv).value;
              && l <= m < |tls| && 0 < q < |tls[m]|
              && SearchIn(lv, From(tls, l, p)).Ends?
              && SearchIn(lv, From(tls, l, p)).n == Place(tls, m, q) - Place(tls, l, p)
    decreases |tls| - l
  {
    LineSearch(tls[l], p, lv);
    FromSplits(tls, l, p, lv);
    var r := SearchIn(lv, tls[l][p..]);
    if r.GoesOn? && l + 1 < |tls| {
      CloseInText(tls, l + 1, 0, r.level);
      PlaceNext(tls, l);
    }
  }

  // ---- Lines of text ----

  ghost predicate ReadsLines(lines: seq<string>, tls: seq<seq<Token>>) {
    && |tls| == |lines| && Ended(tls)
    && forall l :: 0 <= l < |lines| ==> Reads(lines[l], Front(tls[l]))
  }

  lemma {:induction false} ReadsText(lines: seq<string>, tls: seq<seq<Token>>)
    requires ReadsLines(lines, tls)
    ensures Reads(Flatten(lines), Text(tls))
    decreases |lines|
  {
    if lines != [] {
      ReadsText(lines[1..], tls[1..]);
      ReadsBoth(lines[0], Front(tls[0]), Flatten(lines[1..]), Text(tls[1..]));
    }
  }

  lemma {:induction false} ReadsBoth(u: string, us: seq<Token>, v: string, vs: seq<Token>)
    requires Reads(u, us) && Reads(v, vs)
    ensures Reads(u + v, us + vs)
  {
  }

  lemma {:induction false} PlaceIsAt(lines: seq<string>, tls: seq<seq<Token>>, l: nat, p: int)
    requires ReadsLines(lines, tls) && l <= |lines|
    ensures Place(tls, l, p) == At(lines, l, p)
  {
    ReadsText(lines[..l], tls[..l]);
  }

  lemma {:induction false} FromIsSuffix(lines: seq<string>, tls: seq<seq<Token>>, l: nat, p: nat)
    requires ReadsLines(lines, tls) && l < |lines| && p <= |lines[l]|
    ensures 0 <= At(lines, l, p) <= |Text(tls)| && From(tls, l, p) == Text(tls)[At(lines, l, p)..]
  {
    PlaceIsAt(lines, tls, l, p);
    TextConcat(tls[..l], tls[l..]);
    assert tls == tls[..l] + tls[l..] && tls[l..][1..] == tls[l + 1..];
    var a, u, v := Text(tls[..l]), Front(tls[l]), Text(tls[l + 1..]);
    assert Text(tls) == a + (u + v) && u[p..] == tls[l][p..|tls[l]| - 1];
    assert (a + (u + v))[|a| + p..] == u[p..] + v;
  }

  /** The pair in the text from one place to another. */
  ghost predicate PairFrom(t: string, ts: seq<Token>, i: int, j: int) {
    |t| == |ts| && 0 <= i < j <= |t| && AnglePair(t[i..j], ts[i..j])
  }

  /** The search over lines from a `<` ends just past the `>` that belongs to it, and nowhere
      else. */
  lemma {:induction false} CloseInIff(lines: seq<string>, tls: seq<seq<Token>>, l: nat, p: nat, m: nat, q: nat)
    requires ReadsLines(lines, tls) && l < |lines| && p < |lines[l]| && tls[l][p] == Less
    requires m < |lines| && 0 < q <= |lines[m]|
    ensures CloseIn(tls, l, p, START) == Some((m, q)) <==>
              PairFrom(Flatten(lines), Text(tls), At(lines, l, p), At(lines, m, q))
  {
    CloseInPlace(lines, tls, l, p, m, q);
    PairInText(lines, tls, l, p, m, q);
  }

  /** Where the search ends, as a distance in the text. */
  lemma {:induction false} CloseInPlace(lines: seq<string>, tls: seq<seq<Token>>, l: nat, p: nat, m: nat, q: nat)
    requires ReadsLines(lines, tls) && l < |lines| && p < |lines[l]| && tls[l][p] == Less
    requires m < |lines| && 0 < q <= |lines[m]|
    ensures 0 <= At(lines, l, p) < |Text(tls)|
    ensures CloseIn(tls, l, p, START) == Some((m, q)) <==>
              var r := SearchIn(START, Text(tls)[At(lines, l, p)..]);
              r.Ends? && r.n == At(lines, m, q) - At(lines, l, p)
  {
    FromIsSuffix(lines, tls, l, p);
    CloseInText(tls, l, p, START);
    ReadsText(lines, tls);
    CharAt(lines, l, p);
    PlaceIsAt(lines, tls, l, p);
    var c, r := CloseIn(tls, l, p, START), SearchIn(START, Text(tls)[At(lines, l, p)..]);
    if c.Some? {
      PlaceIsAt(lines, tls, c.value.0, c.value.1);
      if r.n == At(lines, m, q) - At(lines, l, p) { AtInjective(lines, m, q - 1, c.value.0, c.value.1 - 1); }
    }
  }

  lemma {:induction false} PairInText(lines: seq<string>, tls: seq<seq<Token>>, l: nat, p: nat, m: nat, q: nat)
    requires ReadsLines(lines, tls) && l < |lines| && p < |lines[l]| && tls[l][p] == Less
    requires m < |lines| && 0 < q <= |lines[m]| && 0 <= At(lines, l, p) < |Text(tls)|
    ensures PairFrom(Flatten(lines), Text(tls), At(lines, l, p), At(lines, m, q)) <==>
              var r := SearchIn(START, Text(tls)[At(lines, l, p)..]);
              r.Ends? && r.n == At(lines, m, q) - At(lines, l, p)
  {
    var t, ts, i, j := Flatten(lines), Text(tls), At(lines, l, p), At(lines, m, q);
    ReadsText(lines, tls);
    FromIsSuffix(lines, tls, l, p);
    FlattenAt(lines, m, q);
    FlattenSplit(lines, m + 1);
    ReadsSuffix(t, ts, i);
    assert ts[i..][0] == Less by { assert From(tls, l, p)[0] == tls[l][p]; }
    if i < j {
      assert t[i..][..j - i] == t[i..j] && ts[i..][..j - i] == ts[i..j];
      PairIff(t[i..], ts[i..], j - i);
    }
  }

  lemma {:induction false} ReadsSuffix(t: string, ts: seq<Token>, i: nat)
    requires Reads(t, ts) && i <= |t|
    ensures Reads(t[i..], ts[i..])
  {
  }

  // ---- Forward ----

  function LexLines(lines: seq<string>): (tls: seq<seq<Token>>)
    ensures |tls| == |lines| && forall l :: 0 <= l < |lines| ==> tls[l] == Lex(lines[l])
  {
    seq(|lines|, l requires 0 <= l < |lines| => Lex(lines[l]))
  }

  lemma {:induction false} LexReads(lines: seq<string>)
    ensures ReadsLines(lines, LexLines(lines))
  {
  }

  lemma {:induction false} CloseOfIsCloseIn(lines: seq<string>, l: nat, p: nat, lv: Level)
    requires l < |lines| && p <= |lines[l]|
    ensures CloseOf(lines, l, p, lv) == CloseIn(LexLines(lines), l, p, lv)
    decreases |lines| - l
  {
    var r := SearchIn(lv, Lex(lines[l])[p..]);
    if r.GoesOn? && l + 1 < |lines| { CloseOfIsCloseIn(lines, l + 1, 0, r.level); }
  }

  /** From a `<`, CloseExpression finds exactly the `>` that belongs to it in the whole text. */
  lemma {:induction false} AngleCloseIff(lines: seq<string>, l: nat, p: nat, m: nat, q: nat)
    requires l < |lines| && p < |lines[l]| && TokenAt(lines[l], p) == Less && m < |lines| && 0 < q <= |lines[m]|
    ensures CloseOf(lines, l, p, START) == Some((m, q)) <==>
              PairFrom(Flatten(lines), Text(LexLines(lines)), At(lines, l, p), At(lines, m, q))
  {
    LexReads(lines);
    CloseOfIsCloseIn(lines, l, p, START);
    CloseInIff(lines, LexLines(lines), l, p, m, q);
  }

  // ---- Backward ----

  function BackLexLines(lines: seq<string>): (tls: seq<seq<Token>>)
    ensures |tls| == |lines| && forall k :: 0 <= k < |lines| ==> tls[k] != []
  {
    seq(|lines|, k requires 0 <= k < |lines| => BackLex(lines[|lines| - 1 - k]))
  }

  lemma {:induction false} BackLineAt(lines: seq<string>, l: nat)
    requires l < |lines|
    ensures BackLexLines(lines)[|lines| - 1 - l] == BackLex(lines[l])
    ensures |MirrorLines(lines)[|lines| - 1 - l]| == |lines[l]|
  {
  }

  lemma {:induction false} BackLexReads(lines: seq<string>)
    ensures ReadsLines(MirrorLines(lines), BackLexLines(lines))
  {
    var tls := BackLexLines(lines);
    forall k | 0 <= k < |lines|
      ensures tls[k] != [] && Last(tls[k]) == EndOfLine && Reads(MirrorLines(lines)[k], Front(tls[k]))
    {
      BackLineAt(lines, |lines| - 1 - k);
      BackLineReads(lines[|lines| - 1 - k]);
    }
  }

  lemma {:induction false} BackLineReads(line: string)
    ensures Reads(Mirror(line), Front(BackLex(line)))
  {
    forall k | 0 <= k < |line|
      ensures Mirror(line)[k] == Flip(line[|line| - 1 - k])
      ensures Front(BackLex(line))[k] == BackTokenAt(line, |line| - 1 - k)
    {
      MirrorAt(line, k);
    }
  }

  lemma {:induction false} OpenOfIsCloseIn(lines: seq<string>, l: nat, e: int, lv: Level)
    requires l < |lines| && -1 <= e < |lines[l]|
    ensures |BackLexLines(lines)[|lines| - 1 - l]| == |lines[l]| + 1
    ensures OpenOf(lines, l, e, lv).Some? <==>
              CloseIn(BackLexLines(lines), |lines| - 1 - l, |lines[l]| - 1 - e, lv).Some?
    ensures OpenOf(lines, l, e, lv).Some? ==>
              var (m, q) := OpenOf(lines, l, e, lv).value;
              && m < |lines| && -1 <= q <= |lines[m]|
              && CloseIn(BackLexLines(lines), |lines| - 1 - l, |lines[l]| - 1 - e, lv).value ==
                 (|lines| - 1 - m, |lines[m]| - q)
    decreases l
  {
    BackLineAt(lines, l);
    var r := SearchIn(lv, BackLex(lines[l])[|lines[l]| - 1 - e..]);
    if r.GoesOn? && l > 0 {
      OpenOfIsCloseIn(lines, l - 1, |lines[l - 1]| - 1, r.level);
      BackLineAt(lines, l - 1);
    }
  }

  /** The pair that a backward search sees, told from the places of `<` and `>`. */
  ghost predicate BackPairFrom(lines: seq<string>, i: int, j: int) {
    var t := Flatten(lines);
    PairFrom(Mirror(t), Text(BackLexLines(lines)), |t| - j, |t| - i)
  }

  /** From a `>`, ReverseCloseExpression finds exactly the `<` that belongs to it in the whole
      text, as the backward search reads it. */
  lemma {:induction false} AngleOpenIff(lines: seq<string>, l: nat, p: nat, m: nat, q: nat)
    requires l < |lines| && p < |lines[l]| && BackTokenAt(lines[l], p) == Less && m < |lines| && q < |lines[m]|
    ensures OpenOf(lines, l, p, START) == Some((m, q)) <==>
              BackPairFrom(lines, At(lines, m, q), At(lines, l, p + 1))
  {
    OpenOfAt(lines, l, p, m, q);
    BackCloseIff(lines, l, p, m, q);
  }

  lemma {:induction false} BackCloseIff(lines: seq<string>, l: nat, p: nat, m: nat, q: nat)
    requires l < |lines| && p < |lines[l]| && BackTokenAt(lines[l], p) == Less && m < |lines| && q < |lines[m]|
    ensures |BackLexLines(lines)[|lines| - 1 - l]| == |lines[l]| + 1
    ensures CloseIn(BackLexLines(lines), |lines| - 1 - l, |lines[l]| - 1 - p, START) ==
            Some((|lines| - 1 - m, |lines[m]| - q)) <==>
              BackPairFrom(lines, At(lines, m, q), At(lines, l, p + 1))
  {
    MirrorCloseIff(lines, l, p, m, q);
    SamePlaces(lines, l, p, m, q);
  }

  lemma {:induction false} MirrorCloseIff(lines: seq<string>, l: nat, p: nat, m: nat, q: nat)
    requires l < |lines| && p < |lines[l]| && BackTokenAt(lines[l], p) == Less && m < |lines| && q < |lines[m]|
    ensures |BackLexLines(lines)[|lines| - 1 - l]| == |lines[l]| + 1
    ensures CloseIn(BackLexLines(lines), |lines| - 1 - l, |lines[l]| - 1 - p, START) ==
            Some((|lines| - 1 - m, |lines[m]| - q)) <==>
              PairFrom(Flatten(MirrorLines(lines)), Text(BackLexLines(lines)),
                       At(MirrorLines(lines), |lines| - 1 - l, |lines[l]| - 1 - p),
                       At(MirrorLines(lines), |lines| - 1 - m, |lines[m]| - q))
  {
    BackTokenIn(lines, l, p);
    BackLineAt(lines, l);
    BackLineAt(lines, m);
    MirrorCloseIn(lines, |lines| - 1 - l, |lines[l]| - 1 - p, |lines| - 1 - m, |lines[m]| - q);
  }

  lemma {:induction false} MirrorCloseIn(lines: seq<string>, l: nat, p: nat, m: nat, q: nat)
    requires l < |lines| && p < |MirrorLines(lines)[l]| < |BackLexLines(lines)[l]| && BackLexLines(lines)[l][p] == Less
    requires m < |lines| && 0 < q <= |MirrorLines(lines)[m]|
    ensures CloseIn(BackLexLines(lines), l, p, START) == Some((m, q)) <==>
              PairFrom(Flatten(MirrorLines(lines)), Text(BackLexLines(lines)),
                       At(MirrorLines(lines), l, p), At(MirrorLines(lines), m, q))
  {
    BackLexReads(lines);
    CloseInIff(MirrorLines(lines), BackLexLines(lines), l, p, m, q);
  }

  lemma {:induction false} SamePlaces(lines: seq<string>, l: nat, p: nat, m: nat, q: nat)
    requires l < |lines| && p < |lines[l]| && m < |lines| && q < |lines[m]|
    ensures PairFrom(Flatten(MirrorLines(lines)), Text(BackLexLines(lines)),
                     At(MirrorLines(lines), |lines| - 1 - l, |lines[l]| - 1 - p),
                     At(MirrorLines(lines), |lines| - 1 - m, |lines[m]| - q)) <==>
              BackPairFrom(lines, At(lines, m, q), At(lines, l, p + 1))
  {
    BackPlaces(lines, l, p, m, q);
  }

  lemma {:induction false} OpenOfAt(lines: seq<string>, l: nat, p: nat, m: nat, q: nat)
    requires l < |lines| && p < |lines[l]| && m < |lines| && q < |lines[m]|
    ensures |BackLexLines(lines)[|lines| - 1 - l]| == |lines[l]| + 1
    ensures OpenOf(lines, l, p, START) == Some((m, q)) <==>
              CloseIn(BackLexLines(lines), |lines| - 1 - l, |lines[l]| - 1 - p, START) ==
              Some((|lines| - 1 - m, |lines[m]| - q))
  {
    OpenOfIsCloseIn(lines, l, p, START);
    var r := OpenOf(lines, l, p, START);
    if r.Some? { assert r.value == (r.value.0, r.value.1); }
  }

  lemma {:induction false} BackTokenIn(lines: seq<string>, l: nat, p: nat)
    requires l < |lines| && p < |lines[l]|
    ensures |BackLexLines(lines)[|lines| - 1 - l]| == |lines[l]| + 1
    ensures BackLexLines(lines)[|lines| - 1 - l][|lines[l]| - 1 - p] == BackTokenAt(lines[l], p)
  {
    BackLineAt(lines, l);
  }

  lemma {:induction false} BackPlaces(lines: seq<string>, l: nat, p: nat, m: nat, q: nat)
    requires l < |lines| && p < |lines[l]| && m < |lines| && q < |lines[m]|
    ensures Flatten(MirrorLines(lines)) == Mirror(Flatten(lines))
    ensures At(MirrorLines(lines), |lines| - 1 - l, |lines[l]| - 1 - p) == |Flatten(lines)| - At(lines, l, p + 1)
    ensures At(MirrorLines(lines), |lines| - 1 - m, |lines[m]| - q) == |Flatten(lines)| - At(lines, m, q)
  {
    FlattenMirror(lines);
    AtMirror(lines, l, p + 1);
    AtMirror(lines, m, q);
  }

  // ---- Shifts ----

  /** `<<` read as an operator, which it is to the backward search. */
  function Settled(ts: seq<Token>, k: nat): (t: Token)
    requires k < |ts|
  {
    if (ts[k] == Less && k + 1 < |ts| && ts[k + 1] == Shift) || (ts[k] == Shift && k > 0 && ts[k - 1] == Less)
    then Plain else ts[k]
  }

  function Settle(ts: seq<Token>): (us: seq<Token>)
    ensures |us| == |ts| && forall k :: 0 <= k < |ts| ==> us[k] == Settled(ts, k)
  {
    seq(|ts|, k requires 0 <= k < |ts| => Settled(ts, k))
  }

  /** Between the two characters of `<<`. */
  predicate WithinShift(ts: seq<Token>, k: nat) {
    0 < k < |ts| && ts[k - 1] == Less && ts[k] == Shift
  }

  lemma {:induction false} SettledHeight(w: string, ts: seq<Token>, k: nat)
    requires Reads(w, ts) && k <= |w|
    ensures Height(w, Settle(ts), k) == Height(w, ts, k) - if WithinShift(ts, k) && Outside(w, k) then 1 else 0
    decreases k
  {
    if k > 0 {
      SettledHeight(w, ts, k - 1);
      RunAt(w, k - 1);
      assert Settle(ts)[k - 1] == Settled(ts, k - 1);
    }
  }

  lemma {:induction false} SettledRises(w: string, ts: seq<Token>, k: nat)
    requires Reads(w, ts) && 0 < k < |w| && WithinShift(ts, k) && Outside(w, k)
    ensures Height(w, Settle(ts), k) == Height(w, ts, k) - 1 == Height(w, ts, k - 1)
  {
    SettledHeight(w, ts, k);
    RunAt(w, k - 1);
    assert Height(w, ts, k) == Height(w, ts, k - 1) + if Outside(w, k - 1) then Effect(ts[k - 1]) else 0;
  }

  lemma {:induction false} SettledPair(w: string, ts: seq<Token>)
    requires Reads(w, ts) && (|ts| > 1 ==> ts[1] != Shift)
    ensures AnglePair(w, ts) <==> AnglePair(w, Settle(ts))
  {
    if w != [] {
      SettledHeight(w, ts, |w|);
      assert Settle(ts)[0] == Settled(ts, 0) && Settle(ts)[|w| - 1] == Settled(ts, |w| - 1);
      forall m | 0 <= m < |w| ensures ts[m] == Semicolon <==> Settle(ts)[m] == Semicolon {
        assert Settle(ts)[m] == Settled(ts, m);
      }
      forall k | 0 < k < |w|
        ensures Height(w, Settle(ts), k) > 0 ==> Height(w, ts, k) > 0
        ensures Height(w, ts, k) > 0 && Height(w, ts, k - 1) > 0 ==> Height(w, Settle(ts), k) > 0
        ensures k == 1 ==> Height(w, Settle(ts), k) == Height(w, ts, k)
      {
        SettledHeight(w, ts, k);
        if WithinShift(ts, k) && Outside(w, k) { SettledRises(w, ts, k); }
      }
      if AnglePair(w, ts) {
        forall k | 0 < k < |w| ensures Height(w, Settle(ts), k) > 0 {
          if k > 1 { assert Height(w, ts, k - 1) > 0; }
        }
      }
      if AnglePair(w, Settle(ts)) {
        assert ts[0] == Less && ts[|w| - 1] == Greater;
        forall k | 0 < k < |w| ensures Height(w, ts, k) > 0 { assert Height(w, Settle(ts), k) > 0; }
      }
    }
  }

  // ---- Pairs in the mirror ----

  function Turned(t: Token): (r: Token) {
    match t
    case Enter(c) => Leave(Flip(c))
    case Leave(c) => Enter(Flip(c))
    case Less => Greater
    case Greater => Less
    case _ => t
  }

  /** The mirrored text has the turned tokens. */
  ghost predicate Turns(ts: seq<Token>, bs: seq<Token>) {
    |bs| == |ts| && forall k :: 0 <= k < |ts| ==> ts[k] != Shift && bs[|ts| - 1 - k] == Turned(ts[k])
  }

  lemma {:induction false} NestedMirror(w: string)
    requires Nested(w)
    ensures Nested(Mirror(w))
  {
    var p: Parse :| Parses(p, w);
    var q := ParseMirror(p);
  }

  lemma {:induction false} OutsideSuffix(w: string, k: nat)
    requires Nested(w) && k <= |w|
    ensures Outside(w, k) <==> Nested(w[k..])
  {
    NestedIffRun(w);
    assert w == w[..k] + w[k..];
    RunSplit([], w[..k], w[k..]);
    if Nested(w[k..]) { NestedKeepsStack(Run([], w[..k]).value, w[k..]); }
    NestedIffRun(w[k..]);
  }

  lemma {:induction false} OutsideMirror(w: string, k: nat)
    requires Nested(w) && k <= |w|
    ensures Outside(Mirror(w), k) <==> Outside(w, |w| - k)
  {
    var v := w[|w| - k..];
    OutsideSuffix(w, |w| - k);
    MirrorSlice(w, |w| - k, |w|);
    assert w[|w| - k..|w|] == v && Mirror(w)[0..k] == Mirror(w)[..k] == Mirror(v);
    NestedIffRun(Mirror(v));
    if Nested(v) { NestedMirror(v); }
    if Nested(Mirror(v)) {
      NestedMirror(Mirror(v));
      MirrorTwice(v);
    }
  }

  lemma {:induction false} MirrorHeight(w: string, ts: seq<Token>, bs: seq<Token>, k: nat)
    requires Nested(w) && Reads(w, ts) && Turns(ts, bs) && k <= |w|
    ensures Height(Mirror(w), bs, k) == Height(w, ts, |w| - k) - Height(w, ts, |w|)
    decreases k
  {
    if k > 0 {
      var m := |w| - k;
      MirrorHeight(w, ts, bs, k - 1);
      OutsideMirror(w, k - 1);
      RunAt(w, m);
      assert bs[k - 1] == Turned(ts[m]);
      assert Height(w, ts, m + 1) == Height(w, ts, m) + if Outside(w, m) then Effect(ts[m]) else 0;
    }
  }

  /** A pair is a pair in the mirror, where the tokens are turned. */
  lemma {:induction false} AngleMirror(w: string, ts: seq<Token>, bs: seq<Token>)
    requires Reads(w, ts) && Turns(ts, bs) && AnglePair(w, ts)
    ensures AnglePair(Mirror(w), bs)
  {
    var n := |w|;
    NestedMirror(w);
    forall k | 0 <= k <= n ensures Height(Mirror(w), bs, k) == Height(w, ts, n - k) { MirrorHeight(w, ts, bs, k); }
    assert bs[n - 1 - 0] == Turned(ts[0]) && bs[n - 1 - (n - 1)] == Turned(ts[n - 1]);
    forall k | 0 <= k < n && Outside(Mirror(w), k) ensures bs[k] != Semicolon {
      OutsideMirror(w, k);
      RunAt(w, n - 1 - k);
      assert bs[n - 1 - (n - 1 - k)] == Turned(ts[n - 1 - k]);
    }
  }

  // ---- The two directions ----

  /** From `i` to `j` the backward search reads what the forward search reads, except that it
      takes `<<` for an operator. */
  ghost predicate Agree(fs: seq<Token>, bs: seq<Token>, i: int, j: int) {
    && |fs| == |bs| && 0 <= i < j <= |fs| && (i + 1 < j ==> fs[i + 1] != Shift)
    && Turns(Settle(fs[i..j]), bs[|fs| - j..|fs| - i])
  }

  lemma {:induction false} SettledReads(w: string, ts: seq<Token>)
    requires Reads(w, ts)
    ensures Reads(w, Settle(ts))
  {
  }

  /** Where both searches read the marks alike they see the same pairs. */
  lemma {:induction false} AgreeingPair(t: string, fs: seq<Token>, bs: seq<Token>, i: int, j: int)
    requires Reads(t, fs) && Agree(fs, bs, i, j) && PairFrom(t, fs, i, j)
    ensures PairFrom(Mirror(t), bs, |t| - j, |t| - i)
  {
    SliceReads(t, fs, i, j);
    PairTurned(t[i..j], fs[i..j], bs[|t| - j..|t| - i]);
    MirrorSlice(t, i, j);
  }

  lemma {:induction false} SliceReads(t: string, ts: seq<Token>, i: nat, j: nat)
    requires Reads(t, ts) && i <= j <= |t|
    ensures Reads(t[i..j], ts[i..j])
  {
  }

  lemma {:induction false} PairTurned(w: string, ts: seq<Token>, bs: seq<Token>)
    requires Reads(w, ts) && (|ts| > 1 ==> ts[1] != Shift) && Turns(Settle(ts), bs) && AnglePair(w, ts)
    ensures AnglePair(Mirror(w), bs)
  {
    SettledPair(w, ts);
    SettledReads(w, ts);
    AngleMirror(w, Settle(ts), bs);
  }

  /** If CloseExpression finds the end of a `<`, then ReverseCloseExpression leads back from it
      if and only if the two are a pair to the backward search as well, for which it is enough
      that both read what is in between alike. If the backward search takes the `>` for an
      operator, it does what it does from the character before. */
  lemma {:induction false} AngleUndoIff(lines: seq<string>, l: nat, p: nat, m: nat, q: nat)
    requires l < |lines| && p < |lines[l]| && TokenAt(lines[l], p) == Less && m < |lines| && 0 < q <= |lines[m]|
    requires CloseOf(lines, l, p, START) == Some((m, q))
    ensures BackTokenAt(lines[m], q - 1) == Less ==>
              (OpenOf(lines, m, q - 1, START) == Some((l, p)) <==>
               BackPairFrom(lines, At(lines, l, p), At(lines, m, q)))
    ensures BackTokenAt(lines[m], q - 1) == Less &&
            Agree(Text(LexLines(lines)), Text(BackLexLines(lines)), At(lines, l, p), At(lines, m, q)) ==>
              OpenOf(lines, m, q - 1, START) == Some((l, p))
    ensures BackTokenAt(lines[m], q - 1) == Plain ==>
              OpenOf(lines, m, q - 1, START) == OpenOf(lines, m, q - 2, START)
  {
    var fs, bs, i, j := Text(LexLines(lines)), Text(BackLexLines(lines)), At(lines, l, p), At(lines, m, q);
    if BackTokenAt(lines[m], q - 1) == Less {
      AngleOpenIff(lines, m, q - 1, l, p);
      AngleCloseIff(lines, l, p, m, q);
      if Agree(fs, bs, i, j) { AgreeingUndo(lines, i, j); }
    } else if BackTokenAt(lines[m], q - 1) == Plain {
      PlainIsSkipped(lines, m, q - 1);
    }
  }

  lemma {:induction false} PlainIsSkipped(lines: seq<string>, l: nat, p: nat)
    requires l < |lines| && p < |lines[l]| && BackTokenAt(lines[l], p) == Plain
    ensures OpenOf(lines, l, p, START) == OpenOf(lines, l, p - 1, START)
  {
    var ts, k := BackLex(lines[l]), |lines[l]| - 1 - p;
    assert ts[k] == Plain && ts[k..][1..] == ts[k + 1..];
  }

  /** A line on which the directions do not undo each other: ` >= ` ends a `<` forwards, and is
      an operator backwards. */
  lemma {:induction false} AngleNotUndone()
    ensures CloseOf(["< >= "], 0, 0, START) == Some((0, 3)) && OpenOf(["< >= "], 0, 2, START) == None
  {
    NotUndoneForward();
    NotUndoneBackward();
  }

  lemma {:induction false} NotUndoneForward()
    ensures CloseOf(["< >= "], 0, 0, START) == Some((0, 3))
  {
    var line := "< >= ";
    forall i | 0 <= i <= |line| ensures !EndsInOperator(line, i) {}
    var fs := Lex(line);
    assert fs[0] == Less && fs[1] == Plain && fs[2] == Greater;
    assert fs[0..] == fs && fs[1..][1..] == fs[2..] && fs[2..][0] == Greater;
    assert SearchIn(Level(1, []), fs[2..]) == Ends(1);
    assert SearchIn(Level(1, []), fs[1..]) == Ends(2);
  }

  lemma {:induction false} NotUndoneBackward()
    ensures OpenOf(["< >= "], 0, 2, START) == None
  {
    var line, lines := "< >= ", ["< >= "];
    assert |line| == 5 && line[0] == '<' && line[1] == ' ' && line[2] == '>' && line[3] == '=' && line[4] == ' ';
    assert BackTokenAt(line, 2) == Plain && BackTokenAt(line, 1) == Plain;
    assert EvenRow(line, 1) && !EvenRow(line, 0) && BackTokenAt(line, 0) == Greater;
    PlainIsSkipped(lines, 0, 2);
    PlainIsSkipped(lines, 0, 1);
    var bs := BackLex(line);
    assert bs[4] == BackTokenAt(line, |line| - 1 - 4) && bs[5] == EndOfLine && |bs| == 6;
    assert bs[4..] == [Greater, EndOfLine] && [Greater, EndOfLine][1..] == [EndOfLine];
    assert SearchIn(START, [EndOfLine]) == Fails;
    assert SearchIn(START, [Greater, EndOfLine]) == Fails;
  }

  lemma {:induction false} AgreeingUndo(lines: seq<string>, i: int, j: int)
    requires PairFrom(Flatten(lines), Text(LexLines(lines)), i, j)
    requires Agree(Text(LexLines(lines)), Text(BackLexLines(lines)), i, j)
    ensures BackPairFrom(lines, i, j)
  {
    ForwardReads(lines);
    AgreeingPair(Flatten(lines), Text(LexLines(lines)), Text(BackLexLines(lines)), i, j);
  }

  lemma {:induction false} ForwardReads(lines: seq<string>)
    ensures Reads(Flatten(lines), Text(LexLines(lines)))
  {
    LexReads(lines);
    ReadsText(lines, LexLines(lines));
  }
}
