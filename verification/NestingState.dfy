/** NestingState of build-support/cpplint.py: the stack of open blocks, saved and
    restored around `#if`/`#else`/`#endif`. What a line does to the blocks is a
    parameter, any function of the stack and the line: everything here holds
    whatever it is. Stacks are values because the original deep-copies every stack
    that it saves or restores while the other one is still in use.
 */
module NestingState {

  datatype Directive = If | Else | Endif | NoDirective

  /** _PreprocessorInfo */
  datatype Frame<B> = Frame(beforeIf: seq<B>, beforeElse: seq<B>, seenElse: bool)

  datatype State<B> = State(stack: seq<B>, frames: seq<Frame<B>>)

  /** How lines are read: their directive, and what they do to the stack of blocks. */
  datatype Reading<!B, !L> = Reading(directive: L -> Directive, step: (seq<B>, L) -> seq<B>)

  function Preprocess<B>(s: State<B>, d: Directive): (r: State<B>) {
    var n := |s.frames| - 1;
    match d
    case If => s.(frames := s.frames + [Frame(s.stack, [], false)])
    case Else =>
      if n < 0 then s
      else
        var top := if s.frames[n].seenElse then s.frames[n]
                   else s.frames[n].(seenElse := true, beforeElse := s.stack);
        State(top.beforeIf, s.frames[n := top])
    case Endif =>
      if n < 0 then s
      else State(if s.frames[n].seenElse then s.frames[n].beforeElse else s.stack, s.frames[..n])
    case NoDirective => s
  }

  function UpdateAll<B, L>(r: Reading<B, L>, s: State<B>, lines: seq<L>): (s': State<B>)
    decreases |lines|
  {
    if lines == [] then s
    else
      var p := Preprocess(s, r.directive(lines[0]));
      UpdateAll(r, p.(stack := r.step(p.stack, lines[0])), lines[1..])
  }

  class NestingState<!B, !L> {
    var stack: seq<B>
    var ppStack: seq<Frame<B>>
    const reading: Reading<B, L>

    function Now(): (s: State<B>)
      reads this
    {
      State(stack, ppStack)
    }

    constructor (reading: Reading<B, L>)
      ensures this.reading == reading && Now() == State([], [])
    {
      this.reading := reading;
      stack, ppStack := [], [];
    }

    method UpdatePreprocessor(line: L)
      modifies this
      ensures Now() == Preprocess(old(Now()), reading.directive(line))
    {
      var n := |ppStack| - 1;
      match reading.directive(line)
      case If =>
        ppStack := ppStack + [Frame(stack, [], false)];
      case Else =>
        if ppStack != [] {
          if !ppStack[n].seenElse {
            ppStack := ppStack[n := ppStack[n].(seenElse := true, beforeElse := stack)];
          }
          stack := ppStack[n].beforeIf;
        }
      case Endif =>
        if ppStack != [] {
          if ppStack[n].seenElse { stack := ppStack[n].beforeElse; }
          ppStack := ppStack[..n];
        }
      case NoDirective =>
    }

    method Update(line: L)
      modifies this
      ensures Now() == UpdateAll(reading, old(Now()), [line])
    {
      UpdatePreprocessor(line);
      stack := reading.step(stack, line);
    }

    /** The file loop: Update on every line. */
    method ProcessFile(lines: seq<L>)
      modifies this
      ensures Now() == UpdateAll(reading, old(Now()), lines)
    {
      for i := 0 to |lines|
        invariant UpdateAll(reading, Now(), lines[i..]) == UpdateAll(reading, old(Now()), lines)
      {
        assert lines[i..][1..] == lines[i + 1..] && [lines[i]][1..] == [];
        Update(lines[i]);
      }
    }
  }

  function Fold<B, L>(r: Reading<B, L>, stack: seq<B>, lines: seq<L>): (stack': seq<B>)
    decreases |lines|
  {
    if lines == [] then stack else Fold(r, r.step(stack, lines[0]), lines[1..])
  }

  lemma {:induction false} FoldConcat<B, L>(r: Reading<B, L>, stack: seq<B>, u: seq<L>, v: seq<L>)
    ensures Fold(r, stack, u + v) == Fold(r, Fold(r, stack, u), v)
    decreases |u|
  {
    if u == [] {
      assert u + v == v;
    } else {
      assert (u + v)[1..] == u[1..] + v;
      FoldConcat(r, r.step(stack, u[0]), u[1..], v);
    }
  }

  lemma {:induction false} UpdateConcat<B, L>(r: Reading<B, L>, s: State<B>, u: seq<L>, v: seq<L>)
    ensures UpdateAll(r, s, u + v) == UpdateAll(r, UpdateAll(r, s, u), v)
    decreases |u|
  {
    if u == [] {
      assert u + v == v;
    } else {
      assert (u + v)[1..] == u[1..] + v;
      var p := Preprocess(s, r.directive(u[0]));
      UpdateConcat(r, p.(stack := r.step(p.stack, u[0])), u[1..], v);
    }
  }

  // ---- Well-nested files ----

  /** A well-nested file: plain lines, and `#if` groups with any number of branches. */
  datatype Items<L> =
    | Nil
    | Plain(line: L, rest: Items<L>)
    | Group(open: L, body: Items<L>, branches: Branches<L>, close: L, rest: Items<L>)
  {
    function Text(): (lines: seq<L>) {
      match this
      case Nil => []
      case Plain(line, rest) => [line] + rest.Text()
      case Group(open, body, branches, close, rest) =>
        [open] + (body.Text() + (branches.Text() + ([close] + rest.Text())))
    }

    /** The lines that are left when every `#else` and `#elif` branch is deleted. */
    function Kept(): (lines: seq<L>) {
      match this
      case Nil => []
      case Plain(line, rest) => [line] + rest.Kept()
      case Group(open, body, branches, close, rest) =>
        [open] + (body.Kept() + ([close] + rest.Kept()))
    }

    predicate WellFormed(directive: L -> Directive) {
      match this
      case Nil => true
      case Plain(line, rest) => directive(line).NoDirective? && rest.WellFormed(directive)
      case Group(open, body, branches, close, rest) =>
        && directive(open).If? && directive(close).Endif?
        && body.WellFormed(directive) && branches.WellFormed(directive) && rest.WellFormed(directive)
    }
  }

  datatype Branches<L> = NoMore | Branch(head: L, body: Items<L>, more: Branches<L>) {
    function Text(): (lines: seq<L>) {
      match this
      case NoMore => []
      case Branch(head, body, more) => [head] + (body.Text() + more.Text())
    }

    predicate WellFormed(directive: L -> Directive) {
      match this
      case NoMore => true
      case Branch(head, body, more) =>
        directive(head).Else? && body.WellFormed(directive) && more.WellFormed(directive)
    }
  }

  lemma {:induction false} UpdateOne<B, L>(r: Reading<B, L>, s: State<B>, line: L, lines: seq<L>)
    ensures UpdateAll(r, s, [line] + lines) ==
            var p := Preprocess(s, r.directive(line));
            UpdateAll(r, p.(stack := r.step(p.stack, line)), lines)
  {
    assert ([line] + lines)[1..] == lines;
  }

  lemma {:induction false} FoldOne<B, L>(r: Reading<B, L>, stack: seq<B>, line: L, lines: seq<L>)
    ensures Fold(r, stack, [line] + lines) == Fold(r, r.step(stack, line), lines)
  {
    assert ([line] + lines)[1..] == lines;
  }

  /** Branch erasure: from any state, a well-nested file ends with the stack that
      its kept lines alone produce, directives ignored, and with the same frames. */
  lemma {:induction false} BranchErasure<B, L>(r: Reading<B, L>, s: State<B>, items: Items<L>)
    requires items.WellFormed(r.directive)
    ensures UpdateAll(r, s, items.Text()) == s.(stack := Fold(r, s.stack, items.Kept()))
    decreases items
  {
    match items
    case Nil =>
    case Plain(line, rest) =>
      UpdateOne(r, s, line, rest.Text());
      FoldOne(r, s.stack, line, rest.Kept());
      BranchErasure(r, s.(stack := r.step(s.stack, line)), rest);
    case Group(open, body, branches, close, rest) =>
      var in0 := State(r.step(s.stack, open), s.frames + [Frame(s.stack, [], false)]);
      UpdateOne(r, s, open, body.Text() + (branches.Text() + ([close] + rest.Text())));
      UpdateConcat(r, in0, body.Text(), branches.Text() + ([close] + rest.Text()));
      BranchErasure(r, in0, body);
      var kept := Fold(r, in0.stack, body.Kept());
      var in1 := in0.(stack := kept);
      UpdateConcat(r, in1, branches.Text(), [close] + rest.Text());
      BranchesSave(r, in1, kept, branches);
      var in2 := UpdateAll(r, in1, branches.Text());
      UpdateOne(r, in2, close, rest.Text());
      assert in2.frames[..|s.frames|] == s.frames;
      var out := State(r.step(kept, close), s.frames);
      BranchErasure(r, out, rest);
      FoldOne(r, s.stack, open, body.Kept() + ([close] + rest.Kept()));
      FoldConcat(r, in0.stack, body.Kept(), [close] + rest.Kept());
      FoldOne(r, kept, close, rest.Kept());
  }

  /** Whatever the branches do, `#endif` will find the stack from before them. */
  lemma {:induction false} BranchesSave<B, L>(r: Reading<B, L>, s: State<B>, kept: seq<B>, branches: Branches<L>)
    requires branches.WellFormed(r.directive) && s.frames != []
    requires var top := s.frames[|s.frames| - 1];
             if top.seenElse then top.beforeElse == kept else s.stack == kept
    ensures var s', n := UpdateAll(r, s, branches.Text()), |s.frames| - 1;
            && |s'.frames| == n + 1 && s'.frames[..n] == s.frames[..n]
            && s'.frames[n].beforeIf == s.frames[n].beforeIf
            && (if s'.frames[n].seenElse then s'.frames[n].beforeElse == kept else s'.stack == kept)
    decreases branches
  {
    match branches
    case NoMore =>
    case Branch(head, body, more) =>
      var p := Preprocess(s, Else);
      var in0 := p.(stack := r.step(p.stack, head));
      UpdateOne(r, s, head, body.Text() + more.Text());
      UpdateConcat(r, in0, body.Text(), more.Text());
      BranchErasure(r, in0, body);
      BranchesSave(r, in0.(stack := Fold(r, in0.stack, body.Kept())), kept, more);
  }

  // ---- Inside a branch ----

  /** An `#else` or `#elif` line is read with the stack from before its `#if`, whatever
      the `#if` branch and the branches between them did. */
  lemma {:induction false} ElseRestarts<B, L>(
    r: Reading<B, L>, s: State<B>, open: L, body: Items<L>, branches: Branches<L>, head: L)
    requires r.directive(open).If? && r.directive(head).Else?
    requires body.WellFormed(r.directive) && branches.WellFormed(r.directive)
    ensures UpdateAll(r, s, [open] + (body.Text() + (branches.Text() + [head]))).stack == r.step(s.stack, head)
  {
    var in0 := State(r.step(s.stack, open), s.frames + [Frame(s.stack, [], false)]);
    UpdateOne(r, s, open, body.Text() + (branches.Text() + [head]));
    UpdateConcat(r, in0, body.Text(), branches.Text() + [head]);
    BranchErasure(r, in0, body);
    var kept := Fold(r, in0.stack, body.Kept());
    var in1 := in0.(stack := kept);
    UpdateConcat(r, in1, branches.Text(), [head]);
    BranchesSave(r, in1, kept, branches);
    UpdateOne(r, UpdateAll(r, in1, branches.Text()), head, []);
    assert [head] + [] == [head];
  }

  /** So inside a branch the stack is what the lines before the `#if`, the `#else` line
      and the kept lines of the branch so far produce: the other branches left no trace. */
  lemma {:induction false} BranchStartsOver<B, L>(r: Reading<B, L>, s: State<B>, open: L, body: Items<L>,
                                                  branches: Branches<L>, head: L, sofar: Items<L>)
    requires r.directive(open).If? && r.directive(head).Else?
    requires body.WellFormed(r.directive) && branches.WellFormed(r.directive) && sofar.WellFormed(r.directive)
    ensures UpdateAll(r, s, [open] + (body.Text() + (branches.Text() + [head])) + sofar.Text()).stack ==
            Fold(r, s.stack, [head] + sofar.Kept())
  {
    var text := [open] + (body.Text() + (branches.Text() + [head]));
    ElseRestarts(r, s, open, body, branches, head);
    UpdateConcat(r, s, text, sofar.Text());
    BranchErasure(r, UpdateAll(r, s, text), sofar);
    FoldOne(r, s.stack, head, sofar.Kept());
  }

  // ---- All files, well nested or not ----

  /** Whether each open `#if` has seen an `#else`. A stray `#else` or `#endif` is ignored. */
  function Flags(flags: seq<bool>, d: Directive): (r: seq<bool>) {
    match d
    case If => flags + [false]
    case Else => if flags == [] then [] else flags[|flags| - 1 := true]
    case Endif => if flags == [] then [] else flags[..|flags| - 1]
    case NoDirective => flags
  }

  /** The lines that no open `#if` has already passed the `#else` of. */
  function Live<L>(directive: L -> Directive, flags: seq<bool>, lines: seq<L>): (r: seq<L>)
    decreases |lines|
  {
    if lines == [] then []
    else
      var f := Flags(flags, directive(lines[0]));
      (if true in f then [] else [lines[0]]) + Live(directive, f, lines[1..])
  }

  function FlagsOf<B>(frames: seq<Frame<B>>): (r: seq<bool>) {
    seq(|frames|, i requires 0 <= i < |frames| => frames[i].seenElse)
  }

  function AllFlags<L>(directive: L -> Directive, flags: seq<bool>, lines: seq<L>): (r: seq<bool>)
    decreases |lines|
  {
    if lines == [] then flags else AllFlags(directive, Flags(flags, directive(lines[0])), lines[1..])
  }

  /** The stack that counts: the one saved by the outermost `#if` that has seen its
      `#else`, or the current one. */
  function Committed<B>(stack: seq<B>, frames: seq<Frame<B>>): (r: seq<B>) {
    if frames == [] then stack
    else if frames[0].seenElse then frames[0].beforeElse
    else Committed(stack, frames[1..])
  }

  lemma {:induction false} CommittedPush<B>(stack: seq<B>, frames: seq<Frame<B>>, f: Frame<B>)
    ensures Committed(stack, frames + [f]) ==
            Committed(if f.seenElse then f.beforeElse else stack, frames)
    decreases |frames|
  {
    if frames == [] {
      assert (frames + [f])[1..] == [];
    } else {
      assert (frames + [f])[1..] == frames[1..] + [f];
      CommittedPush(stack, frames[1..], f);
    }
  }

  lemma {:induction false} CommittedLive<B>(stack: seq<B>, frames: seq<Frame<B>>)
    ensures true !in FlagsOf(frames) ==> Committed(stack, frames) == stack
    ensures true in FlagsOf(frames) ==> forall st :: Committed(st, frames) == Committed(stack, frames)
    decreases |frames|
  {
    if frames != [] {
      assert FlagsOf(frames) == [frames[0].seenElse] + FlagsOf(frames[1..]);
      CommittedLive(stack, frames[1..]);
    }
  }

  /** No directive changes the committed stack; only the flags move. */
  lemma {:induction false} PreprocessCommits<B>(s: State<B>, d: Directive)
    ensures Committed(Preprocess(s, d).stack, Preprocess(s, d).frames) == Committed(s.stack, s.frames)
    ensures FlagsOf(Preprocess(s, d).frames) == Flags(FlagsOf(s.frames), d)
  {
    var n := |s.frames| - 1;
    var p := Preprocess(s, d);
    if d.If? {
      CommittedPush(s.stack, s.frames, Frame(s.stack, [], false));
    } else if n >= 0 && (d.Else? || d.Endif?) {
      assert s.frames == s.frames[..n] + [s.frames[n]];
      CommittedPush(s.stack, s.frames[..n], s.frames[n]);
      if d.Else? {
        assert p.frames == s.frames[..n] + [p.frames[n]];
        CommittedPush(p.stack, s.frames[..n], p.frames[n]);
      }
    }
  }

  /** For every sequence of lines, also ill-nested ones, the committed stack is what
      the live lines alone produce. */
  lemma {:induction false} LiveLinesDecide<B, L>(r: Reading<B, L>, s: State<B>, lines: seq<L>)
    ensures var s' := UpdateAll(r, s, lines);
            && Committed(s'.stack, s'.frames) ==
               Fold(r, Committed(s.stack, s.frames), Live(r.directive, FlagsOf(s.frames), lines))
            && FlagsOf(s'.frames) == AllFlags(r.directive, FlagsOf(s.frames), lines)
    decreases |lines|
  {
    if lines != [] {
      var d := r.directive(lines[0]);
      var p := Preprocess(s, d);
      var q := p.(stack := r.step(p.stack, lines[0]));
      PreprocessCommits(s, d);
      CommittedLive(p.stack, p.frames);
      CommittedLive(q.stack, q.frames);
      LiveLinesDecide(r, q, lines[1..]);
      if true !in FlagsOf(p.frames) {
        FoldOne(r, p.stack, lines[0], Live(r.directive, FlagsOf(p.frames), lines[1..]));
      } else {
        assert Committed(q.stack, p.frames) == Committed(p.stack, p.frames);
        assert Live(r.directive, FlagsOf(s.frames), lines) == Live(r.directive, FlagsOf(p.frames), lines[1..]);
      }
    }
  }

  /** So once no open `#if` has seen its `#else`, the stack is that of the live lines. */
  lemma {:induction false} StackIsLiveLines<B, L>(r: Reading<B, L>, lines: seq<L>)
    requires true !in AllFlags(r.directive, [], lines)
    ensures UpdateAll(r, State([], []), lines).stack == Fold(r, [], Live(r.directive, [], lines))
  {
    var s: State<B> := State([], []);
    assert FlagsOf(s.frames) == [];
    LiveLinesDecide(r, s, lines);
    var s' := UpdateAll(r, s, lines);
    CommittedLive(s'.stack, s'.frames);
  }
}
