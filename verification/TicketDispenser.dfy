/** The worker loop of LargeDataTableBenchmarkObject::SimulateOltp
    (benchmark/benchmark_util/data_table_benchmark_util.cpp): threads take
    transaction ids from a shared atomic 32-bit counter and, when submissions are
    throttled, may give one back. A state machine over the atomic steps of all
    threads; a run is any interleaving, and the clock decides freely when a
    throttled thread gives back.
 */
module TicketDispenser {
  import opened Basics

  const U32: nat := 0x1_0000_0000

  /** A thread is about to take an id, holds one, or has left its loop. */
  datatype Thread = Ready | Holding(id: nat) | Exited

  /** num_transactions, the number of workers, and submit_interval_us > 0. */
  datatype Config = Config(num: nat, workers: nat, throttled: bool)

  datatype State = State(counter: nat, threads: seq<Thread>, ran: seq<nat>)

  datatype Action = Take(t: nat) | Execute(t: nat) | GiveBack(t: nat)

  function Initial(c: Config): (s: State) {
    State(0, seq(c.workers, _ => Ready), [])
  }

  /** One atomic step of thread `t`, None when that step is not enabled. */
  function Step(c: Config, s: State, a: Action): (r: Option<State>) {
    if a.t >= |s.threads| then None
    else
      match (a, s.threads[a.t])
      case (Take(t), Ready) =>
        var thread := if s.counter < c.num then Holding(s.counter) else Exited;
        Some(s.(counter := (s.counter + 1) % U32, threads := s.threads[t := thread]))
      case (Execute(t), Holding(id)) =>
        Some(s.(threads := s.threads[t := Ready], ran := s.ran + [id]))
      case (GiveBack(t), Holding(id)) =>
        if c.throttled
        then Some(s.(counter := (s.counter + U32 - 1) % U32, threads := s.threads[t := Ready]))
        else None
      case _ => None
  }

  function Run(c: Config, s: State, run: seq<Action>): (r: Option<State>)
    decreases |run|
  {
    if run == [] then Some(s)
    else
      var next := Step(c, s, run[0]);
      if next.None? then None else Run(c, next.value, run[1..])
  }

  ghost predicate Reaches(c: Config, run: seq<Action>, s: State) {
    Run(c, Initial(c), run) == Some(s)
  }

  predicate Done(s: State) {
    forall t :: 0 <= t < |s.threads| ==> s.threads[t].Exited?
  }

  // ---- Counting ----

  /** How often `id` has been run. */
  function Times(ran: seq<nat>, id: nat): (n: nat) {
    if ran == [] then 0 else Times(ran[..|ran| - 1], id) + if ran[|ran| - 1] == id then 1 else 0
  }

  /** How many threads hold `id`. */
  function HoldersOf(threads: seq<Thread>, id: nat): (n: nat) {
    if threads == [] then 0 else HoldersOf(threads[1..], id) + if threads[0] == Holding(id) then 1 else 0
  }

  /** The number of threads that hold an id. */
  function Holders(threads: seq<Thread>): (n: nat) {
    if threads == [] then 0 else Holders(threads[1..]) + if threads[0].Holding? then 1 else 0
  }

  /** The number of threads that have left their loop. */
  function Exits(threads: seq<Thread>): (n: nat) {
    if threads == [] then 0 else Exits(threads[1..]) + if threads[0].Exited? then 1 else 0
  }

  lemma {:induction false} CountsUpdate(threads: seq<Thread>, t: nat, x: Thread)
    requires t < |threads|
    ensures Holders(threads[t := x]) + (if threads[t].Holding? then 1 else 0)
         == Holders(threads) + (if x.Holding? then 1 else 0)
    ensures Exits(threads[t := x]) + (if threads[t].Exited? then 1 else 0)
         == Exits(threads) + (if x.Exited? then 1 else 0)
    decreases |threads|
  {
    if t == 0 {
      assert threads[t := x][1..] == threads[1..];
    } else {
      assert threads[t := x][1..] == threads[1..][t - 1 := x];
      CountsUpdate(threads[1..], t - 1, x);
    }
  }

  lemma {:induction false} HoldersOfUpdate(threads: seq<Thread>, t: nat, x: Thread, id: nat)
    requires t < |threads|
    ensures HoldersOf(threads[t := x], id) + (if threads[t] == Holding(id) then 1 else 0)
         == HoldersOf(threads, id) + (if x == Holding(id) then 1 else 0)
    decreases |threads|
  {
    if t == 0 {
      assert threads[t := x][1..] == threads[1..];
    } else {
      assert threads[t := x][1..] == threads[1..][t - 1 := x];
      HoldersOfUpdate(threads[1..], t - 1, x, id);
    }
  }

  lemma {:induction false} CountsBound(threads: seq<Thread>)
    ensures Holders(threads) + Exits(threads) <= |threads|
    decreases |threads|
  {
    if threads != [] { CountsBound(threads[1..]); }
  }

  lemma {:induction false} CountsWithReady(threads: seq<Thread>, t: nat)
    requires t < |threads| && threads[t].Ready?
    ensures Holders(threads) + Exits(threads) < |threads|
    decreases |threads|
  {
    if t == 0 { CountsBound(threads[1..]); } else { CountsWithReady(threads[1..], t - 1); }
  }

  lemma {:induction false} CountsDone(threads: seq<Thread>)
    requires forall t :: 0 <= t < |threads| ==> threads[t].Exited?
    ensures Holders(threads) == 0 && Exits(threads) == |threads|
    ensures forall id :: HoldersOf(threads, id) == 0
    decreases |threads|
  {
    if threads != [] { CountsDone(threads[1..]); }
  }

  // ---- Conservation, for every interleaving ----

  /** The tickets handed out and not given back: run, held, or used up by leaving. */
  function Tickets(s: State): (n: nat) {
    |s.ran| + Holders(s.threads) + Exits(s.threads)
  }

  ghost predicate Conserved(c: Config, s: State) {
    && |s.threads| == c.workers
    && s.counter == Tickets(s) % U32
    && |s.ran| + Holders(s.threads) <= c.num
    && (Exits(s.threads) > 0 ==> |s.ran| + c.workers > c.num)
  }

  lemma {:induction false} Wrap(tickets: nat)
    requires 0 < tickets <= U32
    ensures ((tickets - 1) % U32 + 1) % U32 == tickets % U32
    ensures (tickets % U32 + U32 - 1) % U32 == (tickets - 1) % U32 == tickets - 1
  {
  }

  /** The effect of a step on the counts. */
  lemma {:induction false} StepCounts(c: Config, s: State, a: Action)
    requires Step(c, s, a).Some?
    ensures var s' := Step(c, s, a).value;
            && s'.threads == s.threads[a.t := s'.threads[a.t]]
            && Holders(s'.threads) ==
               Holders(s.threads) + (if s'.threads[a.t].Holding? then 1 else 0) - (if a.Take? then 0 else 1)
            && Exits(s'.threads) == Exits(s.threads) + (if s'.threads[a.t].Exited? then 1 else 0)
  {
    var s' := Step(c, s, a).value;
    assert s'.threads == s.threads[a.t := s'.threads[a.t]];
    CountsUpdate(s.threads, a.t, s'.threads[a.t]);
  }

  lemma {:induction false} StepConserves(c: Config, s: State, a: Action)
    requires c.num + c.workers <= U32
    requires Conserved(c, s) && Step(c, s, a).Some?
    ensures Conserved(c, Step(c, s, a).value)
    ensures a.Take? ==> s.counter == Tickets(s)
  {
    StepCounts(c, s, a);
    CountsBound(s.threads);
    if a.Take? {
      CountsWithReady(s.threads, a.t);
      Wrap(Tickets(s) + 1);
    } else if a.GiveBack? {
      Wrap(Tickets(s));
    }
  }

  lemma {:induction false} ReadyCounts(threads: seq<Thread>)
    requires forall t :: 0 <= t < |threads| ==> threads[t].Ready?
    ensures Holders(threads) == 0 && Exits(threads) == 0
    ensures forall id :: HoldersOf(threads, id) == 0
    decreases |threads|
  {
    if threads != [] { ReadyCounts(threads[1..]); }
  }

  lemma {:induction false} InitialConserved(c: Config)
    ensures Conserved(c, Initial(c)) && Tickets(Initial(c)) == 0
    ensures forall id :: HoldersOf(Initial(c).threads, id) == 0
  {
    ReadyCounts(Initial(c).threads);
  }

  lemma {:induction false} RunConserves(c: Config, s: State, run: seq<Action>)
    requires c.num + c.workers <= U32
    requires Conserved(c, s) && Run(c, s, run).Some?
    ensures Conserved(c, Run(c, s, run).value)
    decreases |run|
  {
    if run != [] {
      StepConserves(c, s, run[0]);
      RunConserves(c, Step(c, s, run[0]).value, run[1..]);
    }
  }

  /** In every reachable state the counter is the number of ids run, held, or spent on
      leaving; never more than `num` are run or held; and once all threads have left,
      the number run is between num - (workers - 1) and num. */
  lemma {:induction false} TicketConservation(c: Config, run: seq<Action>, s: State)
    requires c.num + c.workers <= U32 && Reaches(c, run, s)
    ensures |s.threads| == c.workers
    ensures s.counter == (|s.ran| + Holders(s.threads) + Exits(s.threads)) % U32
    ensures |s.ran| + Holders(s.threads) <= c.num
    ensures Done(s) && c.workers > 0 ==> c.num - (c.workers - 1) <= |s.ran| <= c.num
  {
    InitialConserved(c);
    RunConserves(c, Initial(c), run);
    if Done(s) { CountsDone(s.threads); }
  }

  /** More is promised of no configuration: exactly then are never more than `num` ids run
      or held. */
  lemma {:induction false} ConservationIff(c: Config)
    requires c.num < U32
    ensures (forall run, s :: Reaches(c, run, s) ==> |s.ran| + Holders(s.threads) <= c.num) <==>
              c.num == 0 || c.num + c.workers <= U32
  {
    if c.num == 0 {
      forall run, s | Reaches(c, run, s) ensures |s.ran| + Holders(s.threads) == 0 {
        ReadyCounts(Initial(c).threads);
        NothingRuns(c, Initial(c), run);
      }
    } else if c.num + c.workers <= U32 {
      forall run, s | Reaches(c, run, s) ensures |s.ran| + Holders(s.threads) <= c.num {
        TicketConservation(c, run, s);
      }
    } else {
      var run, s := WrapRepeats(c);
    }
  }

  // ---- How often an id is run ----

  lemma {:induction false} TimesBound(ran: seq<nat>, id: nat)
    ensures Times(ran, id) <= |ran|
    decreases |ran|
  {
    if ran != [] { TimesBound(ran[..|ran| - 1], id); }
  }

  lemma {:induction false} HoldersOfBound(threads: seq<Thread>, id: nat)
    ensures HoldersOf(threads, id) <= Holders(threads)
    decreases |threads|
  {
    if threads != [] { HoldersOfBound(threads[1..], id); }
  }

  /** Before `id` was handed out at all, most of the ids before it had been run. */
  ghost predicate SeldomRun(c: Config, s: State, id: nat) {
    var n := Times(s.ran, id) + HoldersOf(s.threads, id);
    n <= id + 1 && n <= c.workers && (n > 0 ==> id - (c.workers - 1) <= |s.ran| - Times(s.ran, id))
  }

  lemma {:induction false} StepSeldom(c: Config, s: State, a: Action, id: nat)
    requires c.num + c.workers <= U32
    requires Conserved(c, s) && SeldomRun(c, s, id) && Step(c, s, a).Some?
    ensures SeldomRun(c, Step(c, s, a).value, id)
  {
    var s' := Step(c, s, a).value;
    StepConserves(c, s, a);
    StepCounts(c, s, a);
    HoldersOfUpdate(s.threads, a.t, s'.threads[a.t], id);
    HoldersOfBound(s.threads, id);
    TimesBound(s.ran, id);
    if a.Take? { CountsWithReady(s.threads, a.t); }
    if a.Execute? { assert s'.ran[..|s.ran|] == s.ran; }
  }

  lemma {:induction false} RunSeldom(c: Config, s: State, run: seq<Action>, id: nat)
    requires c.num + c.workers <= U32
    requires Conserved(c, s) && SeldomRun(c, s, id) && Run(c, s, run).Some?
    ensures SeldomRun(c, Run(c, s, run).value, id)
    decreases |run|
  {
    if run != [] {
      StepSeldom(c, s, run[0], id);
      StepConserves(c, s, run[0]);
      RunSeldom(c, Step(c, s, run[0]).value, run[1..], id);
    }
  }

  /** However often ids are given back: no id is run more often than there are workers, and
      id k at most k + 1 times. */
  lemma {:induction false} RepetitionBound(c: Config, run: seq<Action>, s: State, id: nat)
    requires c.num + c.workers <= U32 && Reaches(c, run, s)
    ensures Times(s.ran, id) <= c.workers && Times(s.ran, id) <= id + 1
  {
    InitialConserved(c);
    RunSeldom(c, Initial(c), run, id);
  }

  ghost predicate Seldom(c: Config, ran: seq<nat>, id: nat) {
    Times(ran, id) <= c.workers && Times(ran, id) <= id + 1
  }

  /** These bounds hold of all runs of exactly those configurations in which the counter does
      not wrap. */
  lemma {:induction false} RepetitionIff(c: Config)
    requires c.num < U32
    ensures (forall run, s, id :: Reaches(c, run, s) ==> Seldom(c, s.ran, id)) <==>
              c.num == 0 || c.num + c.workers <= U32
  {
    if c.num == 0 {
      forall run, s, id | Reaches(c, run, s) ensures Seldom(c, s.ran, id) {
        ReadyCounts(Initial(c).threads);
        NothingRuns(c, Initial(c), run);
        TimesBound(s.ran, id);
      }
    } else if c.num + c.workers <= U32 {
      forall run, s, id | Reaches(c, run, s) ensures Seldom(c, s.ran, id) { RepetitionBound(c, run, s, id); }
    } else {
      var run, s := WrapRepeats(c);
      assert !Seldom(c, s.ran, 0);
    }
  }

  // ---- Every id exactly once ----

  /** 0, 1, ..., n - 1 */
  function Upto(n: nat): (r: seq<nat>) {
    if n == 0 then [] else Upto(n - 1) + [n - 1]
  }

  /** No id is ever run twice, and when all threads have left all ids have been run. */
  ghost predicate AlwaysExactlyOnce(c: Config) {
    && (forall run, s :: Reaches(c, run, s) ==> forall id: nat :: Times(s.ran, id) <= (if id < c.num then 1 else 0))
    && (forall run, s :: Reaches(c, run, s) && Done(s) ==> forall id: nat :: id < c.num ==> Times(s.ran, id) == 1)
  }

  /** Without giving back, the ids run or held are 0, 1, 2, ... each once. */
  ghost predicate Orderly(c: Config, s: State, id: nat) {
    var k := |s.ran| + Holders(s.threads);
    && Times(s.ran, id) + HoldersOf(s.threads, id) == (if id < k then 1 else 0)
    && (Exits(s.threads) > 0 ==> k == c.num)
  }

  lemma {:induction false} StepOrderly(c: Config, s: State, a: Action, id: nat)
    requires Orderly(c, s, id) && |s.ran| + Holders(s.threads) <= c.num
    requires Step(c, s, a).Some? && !a.GiveBack? && (a.Take? ==> s.counter == Tickets(s))
    ensures Orderly(c, Step(c, s, a).value, id)
  {
    var s' := Step(c, s, a).value;
    StepCounts(c, s, a);
    HoldersOfUpdate(s.threads, a.t, s'.threads[a.t], id);
    if a.Execute? {
      assert s'.ran[..|s.ran|] == s.ran;
    }
  }

  /** A single worker, throttled or not, runs 0, 1, 2, ... in order. */
  ghost predicate InOrder(c: Config, s: State) {
    && |s.threads| == 1
    && s.ran == Upto(|s.ran|)
    && match s.threads[0]
       case Ready => |s.ran| <= c.num && s.counter == |s.ran|
       case Holding(id) => |s.ran| < c.num && id == |s.ran| && s.counter == id + 1
       case Exited => |s.ran| == c.num
  }

  lemma {:induction false} StepInOrder(c: Config, s: State, a: Action)
    requires c.num < U32 && InOrder(c, s) && Step(c, s, a).Some?
    ensures InOrder(c, Step(c, s, a).value)
  {
  }

  lemma {:induction false} RunOrderly(c: Config, s: State, run: seq<Action>, id: nat)
    requires c.num + c.workers <= U32 && !c.throttled
    requires Conserved(c, s) && Orderly(c, s, id) && Run(c, s, run).Some?
    ensures Orderly(c, Run(c, s, run).value, id)
    decreases |run|
  {
    if run != [] {
      StepConserves(c, s, run[0]);
      StepOrderly(c, s, run[0], id);
      RunOrderly(c, Step(c, s, run[0]).value, run[1..], id);
    }
  }

  lemma {:induction false} RunInOrder(c: Config, s: State, run: seq<Action>)
    requires c.num < U32 && InOrder(c, s) && Run(c, s, run).Some?
    ensures InOrder(c, Run(c, s, run).value)
    decreases |run|
  {
    if run != [] {
      StepInOrder(c, s, run[0]);
      RunInOrder(c, Step(c, s, run[0]).value, run[1..]);
    }
  }

  lemma {:induction false} UptoTimes(n: nat, id: nat)
    ensures |Upto(n)| == n && Times(Upto(n), id) == if id < n then 1 else 0
    decreases n
  {
    if n > 0 {
      UptoTimes(n - 1, id);
      assert Upto(n)[..n - 1] == Upto(n - 1);
    }
  }

  lemma {:induction false} OrderlyIsExact(c: Config, run: seq<Action>, s: State, id: nat)
    requires c.num + c.workers <= U32 && !c.throttled && c.workers > 0 && Reaches(c, run, s)
    ensures Times(s.ran, id) <= if id < c.num then 1 else 0
    ensures Done(s) && id < c.num ==> Times(s.ran, id) == 1
  {
    InitialConserved(c);
    RunOrderly(c, Initial(c), run, id);
    RunConserves(c, Initial(c), run);
    if Done(s) { CountsDone(s.threads); }
  }

  lemma {:induction false} InOrderIsExact(c: Config, run: seq<Action>, s: State, id: nat)
    requires c.num < U32 && c.workers == 1 && Reaches(c, run, s)
    ensures Times(s.ran, id) <= if id < c.num then 1 else 0
    ensures Done(s) && id < c.num ==> Times(s.ran, id) == 1
  {
    RunInOrder(c, Initial(c), run);
    UptoTimes(|s.ran|, id);
  }

  // ---- Runs that break it ----

  lemma {:induction false} RunConcat(c: Config, s: State, u: seq<Action>, v: seq<Action>)
    ensures Run(c, s, u + v) == if Run(c, s, u).None? then None else Run(c, Run(c, s, u).value, v)
    decreases |u|
  {
    if u == [] {
      assert u + v == v;
    } else {
      assert (u + v)[1..] == u[1..] + v;
      if Step(c, s, u[0]).Some? { RunConcat(c, Step(c, s, u[0]).value, u[1..], v); }
    }
  }

  lemma {:induction false} Chain(c: Config, s: State, u: seq<Action>, s1: State, v: seq<Action>, s2: State)
    requires Run(c, s, u) == Some(s1) && Run(c, s1, v) == Some(s2)
    ensures Run(c, s, u + v) == Some(s2)
  {
    RunConcat(c, s, u, v);
  }

  lemma {:induction false} RunThen(c: Config, s: State, run: seq<Action>, s1: State, a: Action)
    requires Run(c, s, run) == Some(s1) && Step(c, s1, a).Some?
    ensures Run(c, s, run + [a]) == Step(c, s1, a)
  {
    RunConcat(c, s, run, [a]);
    assert [a][1..] == [];
  }

  /** Thread `t` takes and runs the next `n` ids. */
  lemma {:induction false} Work(c: Config, s: State, t: nat, n: nat) returns (run: seq<Action>, s': State)
    requires t < |s.threads| && s.threads[t].Ready? && s.counter + n <= c.num < U32
    ensures Run(c, s, run) == Some(s')
    ensures s'.counter == s.counter + n && s'.threads == s.threads && |s'.ran| == |s.ran| + n
    ensures forall id: nat :: Times(s'.ran, id) ==
              Times(s.ran, id) + if s.counter <= id < s.counter + n then 1 else 0
    decreases n
  {
    run, s' := [], s;
    if n > 0 {
      run, s' := Work(c, s, t, n - 1);
      var id, before := s'.counter, s';
      var s1 := Step(c, s', Take(t)).value;
      RunThen(c, s, run, s', Take(t));
      s' := Step(c, s1, Execute(t)).value;
      RunThen(c, s, run + [Take(t)], s1, Execute(t));
      run := run + [Take(t)] + [Execute(t)];
      assert s'.ran[..|before.ran|] == before.ran;
      assert s'.threads == s.threads;
    }
  }

  /** When no ids are left, threads a, ..., b - 1 leave. */
  lemma {:induction false} Leave(c: Config, s: State, a: nat, b: nat) returns (run: seq<Action>, s': State)
    requires a <= b <= |s.threads| && c.num <= s.counter && s.counter + (b - a) <= U32
    requires b > a ==> s.counter < U32
    requires forall t :: a <= t < b ==> s.threads[t].Ready?
    ensures Run(c, s, run) == Some(s') && s'.ran == s.ran
    ensures s'.counter == if a == b then s.counter else (s.counter + (b - a)) % U32
    ensures |s'.threads| == |s.threads|
    ensures forall t :: 0 <= t < |s.threads| ==> s'.threads[t] == if a <= t < b then Exited else s.threads[t]
    decreases b - a
  {
    run, s' := [], s;
    if a < b {
      run, s' := Leave(c, s, a, b - 1);
      RunThen(c, s, run, s', Take(b - 1));
      s', run := Step(c, s', Take(b - 1)).value, run + [Take(b - 1)];
    }
  }

  /** With more than 2^32 - num workers the counter wraps and id 0 is run twice. */
  lemma {:induction false} WrapRepeats(c: Config) returns (run: seq<Action>, s: State)
    requires 0 < c.num < U32 < c.num + c.workers
    ensures Reaches(c, run, s) && Times(s.ran, 0) == 2 && |s.ran| == c.num + 1
  {
    var n := U32 - c.num;
    var run1, s1 := Work(c, Initial(c), 0, c.num);
    var run2, s2 := Leave(c, s1, 0, n);
    Chain(c, Initial(c), run1, s1, run2, s2);
    var run3;
    run3, s := Work(c, s2, n, 1);
    Chain(c, Initial(c), run1 + run2, s2, run3, s);
    run := run1 + run2 + run3;
  }

  /** A thread gives back and, with no ids left, leaves. */
  lemma {:induction false} Quit(c: Config, s: State, t: nat)
    requires c.throttled && t < |s.threads| && s.threads[t].Holding? && c.num < s.counter < U32
    ensures Run(c, s, [GiveBack(t), Take(t)]) == Some(s.(threads := s.threads[t := Exited]))
  {
    var s1 := Step(c, s, GiveBack(t)).value;
    assert Run(c, s, []) == Some(s);
    RunThen(c, s, [], s, GiveBack(t));
    RunThen(c, s, [] + [GiveBack(t)], s1, Take(t));
    assert [] + [GiveBack(t)] + [Take(t)] == [GiveBack(t), Take(t)];
    assert Step(c, s1, Take(t)).value.threads == s.threads[t := Exited];
  }

  /** Threads 0, ..., n - 1 each take an id and keep it. */
  lemma {:induction false} Hold(c: Config, s: State, n: nat) returns (run: seq<Action>, s': State)
    requires n <= |s.threads| && s.counter + n <= c.num < U32
    requires forall t :: 0 <= t < |s.threads| ==> s.threads[t].Ready?
    ensures Run(c, s, run) == Some(s') && s'.counter == s.counter + n && s'.ran == s.ran
    ensures |s'.threads| == |s.threads|
    ensures forall t :: 0 <= t < |s.threads| ==> s'.threads[t] == if t < n then Holding(s.counter + t) else Ready
    decreases n
  {
    run, s' := [], s;
    if n > 0 {
      run, s' := Hold(c, s, n - 1);
      RunThen(c, s, run, s', Take(n - 1));
      s', run := Step(c, s', Take(n - 1)).value, run + [Take(n - 1)];
    }
  }

  /** With the counter past the last id, threads 0, ..., n - 1 give back and leave. */
  lemma {:induction false} GiveUp(c: Config, s: State, n: nat) returns (run: seq<Action>, s': State)
    requires c.throttled && n <= |s.threads| && c.num < s.counter < U32
    requires forall t :: 0 <= t < n ==> s.threads[t].Holding?
    ensures Run(c, s, run) == Some(s') && s'.counter == s.counter && s'.ran == s.ran
    ensures |s'.threads| == |s.threads|
    ensures forall t :: 0 <= t < |s.threads| ==> s'.threads[t] == if t < n then Exited else s.threads[t]
    decreases n
  {
    run, s' := [], s;
    if n > 0 {
      run, s' := GiveUp(c, s, n - 1);
      Quit(c, s', n - 1);
      var s1 := s'.(threads := s'.threads[n - 1 := Exited]);
      Chain(c, s, run, s', [GiveBack(n - 1), Take(n - 1)], s1);
      s', run := s1, run + [GiveBack(n - 1), Take(n - 1)];
    }
  }

  /** The first `h` threads take an id each and give it back only after the others
      have run the rest and left: ids 0, ..., h - 1 are never run. */
  lemma {:induction false} GiveBacksLose(c: Config, h: nat) returns (run: seq<Action>, s: State)
    requires c.throttled && 0 < h < c.workers && h <= c.num && c.num + c.workers <= U32
    ensures Reaches(c, run, s) && Done(s) && |s.ran| == c.num - h
    ensures forall id: nat :: Times(s.ran, id) == if h <= id < c.num then 1 else 0
  {
    var s0 := Initial(c);
    var run1, s1 := Hold(c, s0, h);
    var run2, s2 := Work(c, s1, h, c.num - h);
    Chain(c, s0, run1, s1, run2, s2);
    var run3, s3 := Leave(c, s2, h, c.workers);
    Chain(c, s0, run1 + run2, s2, run3, s3);
    var run4;
    run4, s := GiveUp(c, s3, h);
    Chain(c, s0, run1 + run2 + run3, s3, run4, s);
    run := run1 + run2 + run3 + run4;
  }

  /** Some run of throttled workers executes only num - (workers - 1) transactions. */
  lemma {:induction false} BoundIsSharp(c: Config) returns (run: seq<Action>, s: State)
    requires c.throttled && 2 <= c.workers <= c.num + 1 && c.num + c.workers <= U32
    ensures Reaches(c, run, s) && Done(s) && |s.ran| == c.num - (c.workers - 1)
  {
    run, s := GiveBacksLose(c, c.workers - 1);
  }

  /** A thread gives back the id it holds and takes the last one handed out. */
  lemma {:induction false} Exchange(c: Config, s: State, t: nat)
    requires c.throttled && t < |s.threads| && s.threads[t].Holding? && 0 < s.counter <= c.num < U32
    ensures Run(c, s, [GiveBack(t), Take(t)]) == Some(s.(threads := s.threads[t := Holding(s.counter - 1)]))
  {
    var s1 := Step(c, s, GiveBack(t)).value;
    assert Run(c, s, []) == Some(s);
    RunThen(c, s, [], s, GiveBack(t));
    RunThen(c, s, [] + [GiveBack(t)], s1, Take(t));
    assert [] + [GiveBack(t)] + [Take(t)] == [GiveBack(t), Take(t)];
    assert Step(c, s1, Take(t)).value.threads == s.threads[t := Holding(s.counter - 1)];
  }

  /** Threads 0, ..., n - 1 all come to hold the last id handed out. */
  lemma {:induction false} HoldSame(c: Config, s: State, n: nat) returns (run: seq<Action>, s': State)
    requires c.throttled && n <= |s.threads| && 0 < s.counter <= c.num < U32
    requires forall t :: 0 <= t < n ==> s.threads[t].Holding?
    ensures Run(c, s, run) == Some(s') && s'.counter == s.counter && s'.ran == s.ran
    ensures |s'.threads| == |s.threads|
    ensures forall t :: 0 <= t < |s.threads| ==> s'.threads[t] == if t < n then Holding(s.counter - 1) else s.threads[t]
    decreases n
  {
    run, s' := [], s;
    if n > 0 {
      run, s' := HoldSame(c, s, n - 1);
      Exchange(c, s', n - 1);
      var s1 := s'.(threads := s'.threads[n - 1 := Holding(s.counter - 1)]);
      Chain(c, s, run, s', [GiveBack(n - 1), Take(n - 1)], s1);
      s', run := s1, run + [GiveBack(n - 1), Take(n - 1)];
    }
  }

  /** Threads 0, ..., n - 1 run the id that they all hold. */
  lemma {:induction false} RunSame(c: Config, s: State, n: nat, id: nat) returns (run: seq<Action>, s': State)
    requires n <= |s.threads| && forall t :: 0 <= t < n ==> s.threads[t] == Holding(id)
    ensures Run(c, s, run) == Some(s') && Times(s'.ran, id) == Times(s.ran, id) + n
    ensures s'.threads == Readied(s.threads, n)
    decreases n
  {
    if n == 0 {
      run, s' := [], s;
    } else {
      var run1, s1 := RunSame(c, s, n - 1, id);
      run, s' := RunOne(c, s, run1, s1, n - 1, id);
      assert Readied(s.threads, n) == Readied(s.threads, n - 1)[n - 1 := Ready];
    }
  }

  function Readied(threads: seq<Thread>, n: nat): (ts: seq<Thread>)
    requires n <= |threads|
  {
    seq(|threads|, t requires 0 <= t < |threads| => if t < n then Ready else threads[t])
  }

  lemma {:induction false} RunOne(c: Config, s: State, run1: seq<Action>, s1: State, t: nat, id: nat)
    returns (run: seq<Action>, s': State)
    requires Run(c, s, run1) == Some(s1) && t < |s1.threads| && s1.threads[t] == Holding(id)
    ensures Run(c, s, run) == Some(s') && Times(s'.ran, id) == Times(s1.ran, id) + 1
    ensures s'.threads == s1.threads[t := Ready]
  {
    RunThen(c, s, run1, s1, Execute(t));
    run, s' := run1 + [Execute(t)], Step(c, s1, Execute(t)).value;
    assert s'.ran[..|s1.ran|] == s1.ran;
  }

  /** The bound is reached: when submissions are throttled, id k is run k + 1 times, or as
      often as there are workers, in some run. */
  lemma {:induction false} RepetitionIsSharp(c: Config, id: nat) returns (run: seq<Action>, s: State)
    requires c.throttled && id < c.num && c.workers > 0 && c.num + c.workers <= U32
    ensures Reaches(c, run, s) && Times(s.ran, id) == if id + 1 < c.workers then id + 1 else c.workers
  {
    var s0, n := Initial(c), if id + 1 < c.workers then id + 1 else c.workers;
    var run1, s1 := Work(c, s0, 0, id + 1 - n);
    var run2, s2 := Hold(c, s1, n);
    Chain(c, s0, run1, s1, run2, s2);
    var run3, s3 := HoldSame(c, s2, n);
    Chain(c, s0, run1 + run2, s2, run3, s3);
    var run4;
    run4, s := RunSame(c, s3, n, id);
    Chain(c, s0, run1 + run2 + run3, s3, run4, s);
    run := run1 + run2 + run3 + run4;
  }

  /** Exactly when it is promised that no id is run twice and, at the end, none is
      missing: there is nothing to run; or one worker; or several that are not
      throttled and too few to make the counter wrap. */
  lemma {:induction false} ExactlyOnceIff(c: Config)
    requires c.num < U32
    ensures AlwaysExactlyOnce(c) <==>
              || c.num == 0
              || c.workers == 1
              || (c.workers >= 2 && !c.throttled && c.num + c.workers <= U32)
  {
    if c.num == 0 {
      NothingToRun(c);
    } else if c.workers == 0 {
      assert Reaches(c, [], Initial(c)) && Done(Initial(c));
      assert Times(Initial(c).ran, 0) == 0;
    } else if c.workers == 1 {
      forall run, s, id: nat | Reaches(c, run, s)
        ensures Times(s.ran, id) <= (if id < c.num then 1 else 0)
        ensures Done(s) && id < c.num ==> Times(s.ran, id) == 1
      {
        InOrderIsExact(c, run, s, id);
      }
    } else if c.num + c.workers > U32 {
      var run, s := WrapRepeats(c);
    } else if c.throttled {
      var run, s := GiveBacksLose(c, 1);
      assert Times(s.ran, 0) == 0;
    } else {
      forall run, s, id: nat | Reaches(c, run, s)
        ensures Times(s.ran, id) <= (if id < c.num then 1 else 0)
        ensures Done(s) && id < c.num ==> Times(s.ran, id) == 1
      {
        OrderlyIsExact(c, run, s, id);
      }
    }
  }

  lemma {:induction false} NothingRuns(c: Config, s: State, run: seq<Action>)
    requires c.num == 0 && Run(c, s, run).Some?
    requires forall t :: 0 <= t < |s.threads| ==> !s.threads[t].Holding?
    ensures Run(c, s, run).value.ran == s.ran && Holders(Run(c, s, run).value.threads) == 0
    decreases |run|
  {
    if run == [] {
      NoHolders(s.threads);
    } else {
      NothingRuns(c, Step(c, s, run[0]).value, run[1..]);
    }
  }

  lemma {:induction false} NoHolders(threads: seq<Thread>)
    requires forall t :: 0 <= t < |threads| ==> !threads[t].Holding?
    ensures Holders(threads) == 0
    decreases |threads|
  {
    if threads != [] { NoHolders(threads[1..]); }
  }

  lemma {:induction false} NothingToRun(c: Config)
    requires c.num == 0
    ensures AlwaysExactlyOnce(c)
  {
    forall run, s, id: nat | Reaches(c, run, s) ensures Times(s.ran, id) == 0 {
      NothingRuns(c, Initial(c), run);
    }
  }
}
