/**
 * The coverage coordinator as a state machine: a worker pool over the partitions,
 * a serial retry pass, serial exclusive suites, one exact check of the blob
 * directory and one merge. Child results and directory listings are chosen
 * freely by the environment, so statements about every run cover every outcome.
 */
module Coverage {
  import opened Options
  import opened Sorting
  import opened Text
  import opened Decimal
  import W = WorkerPool

  // ----------------------------------------------------------------- results

  datatype Result = Result(exitCode: Option<int>, signal: Option<string>, error: Option<string>, outputTail: Option<string>)

  predicate Failed(r: Result) {
    r.exitCode != Some(0) || r.signal.Some? || r.error.Some?
  }

  predicate Includes(s: string, part: string) {
    part <= s || (s != "" && Includes(s[1..], part))
  }

  /** A worker process died without a failing test: the only result that earns a retry. */
  predicate IsolatedWorkerExit(r: Result) {
    var output := if r.outputTail.Some? then r.outputTail.value else "";
    && r.exitCode == Some(1) && r.signal.None? && r.error.None?
    && Includes(output, "[vitest-pool]: Worker forks emitted error.")
    && Includes(output, "Worker exited unexpectedly")
    && !Includes(output, "Failed Tests")
  }

  const TAIL_LIMIT: nat := 65_536

  /** Over the units of the output, which are UTF-16 code units in the script. */
  function AppendOutputTail<U>(previous: seq<U>, chunk: seq<U>): seq<U> {
    var combined := previous + chunk;
    if |combined| <= TAIL_LIMIT then combined else combined[|combined| - TAIL_LIMIT..]
  }

  function Tail<U>(chunks: seq<seq<U>>): seq<U> {
    if chunks == [] then [] else AppendOutputTail(Tail(chunks[..|chunks| - 1]), chunks[|chunks| - 1])
  }

  function Concat<U>(chunks: seq<seq<U>>): seq<U> {
    if chunks == [] then [] else Concat(chunks[..|chunks| - 1]) + chunks[|chunks| - 1]
  }

  function Last<U>(s: seq<U>): seq<U> {
    if |s| <= TAIL_LIMIT then s else s[|s| - TAIL_LIMIT..]
  }

  lemma {:induction false} LastOfSuffix<U>(s: seq<U>, t: seq<U>)
    ensures Last(Last(s) + t) == Last(s + t)
  {
    if |s| > TAIL_LIMIT {
      var cut := |s| - TAIL_LIMIT;
      assert s[cut..] + t == (s + t)[cut..];
      assert (s + t)[cut..][|t|..] == (s + t)[cut + |t|..];
    }
  }

  lemma {:induction false} TailIsLast<U>(chunks: seq<seq<U>>)
    ensures Tail(chunks) == Last(Concat(chunks))
  {
    if chunks != [] {
      var front, last := chunks[..|chunks| - 1], chunks[|chunks| - 1];
      TailIsLast(front);
      LastOfSuffix(Concat(front), last);
    }
  }

  /** However the output is chunked, the tail is the last 65,536 units of all of it. */
  lemma TailIsSuffixOfOutput<U>(chunks: seq<seq<U>>)
    ensures var output := Concat(chunks);
            Tail(chunks) == if |output| <= 65_536 then output else output[|output| - 65_536..]
  {
    TailIsLast(chunks);
  }

  // --------------------------------------------------- which results count as what

  lemma {:induction false} IncludesMeans(s: string, part: string)
    ensures Includes(s, part) <==> exists a, b :: s == a + part + b
  {
    if part <= s {
      assert s == "" + part + s[|part|..];
    } else if s == "" {
      assert forall a, b :: |a + part + b| >= |part|;
    } else {
      IncludesMeans(s[1..], part);
      if a, b :| s[1..] == a + part + b {
        assert s == [s[0]] + (a + part + b);
        assert s == ([s[0]] + a) + part + b;
      }
      if a, b :| s == a + part + b {
        PartIsFurtherOn(s, a, part, b);
      }
    }
  }

  lemma PartIsFurtherOn(s: string, a: string, part: string, b: string)
    requires s == a + part + b && s != "" && !(part <= s)
    ensures a != "" && s[1..] == a[1..] + part + b
  {
    assert part <= "" + part + b;
    assert a != "";
    assert s == [a[0]] + (a[1..] + part + b);
  }

  /** A command succeeds only by exiting with 0 and neither a signal nor an error. */
  lemma OnlyCleanExitSucceeds(code: int, signal: string, error: string, tail: Option<string>, exit: Option<int>, killed: Option<string>, broken: Option<string>)
    ensures Failed(Result(Some(code), None, None, tail)) <==> code != 0
    ensures Failed(Result(None, killed, broken, tail)) && Failed(Result(exit, Some(signal), broken, tail)) && Failed(Result(exit, killed, Some(error), tail))
  {
  }

  /** An isolated worker exit is a failure with exit code 1 whose output holds both of the pool's messages and reports no failed test. */
  lemma IsolatedExitMeans(r: Result)
    ensures IsolatedWorkerExit(r) <==>
              && r.exitCode == Some(1) && r.signal == None && r.error == None && r.outputTail.Some?
              && (exists a, b :: r.outputTail.value == a + "[vitest-pool]: Worker forks emitted error." + b)
              && (exists a, b :: r.outputTail.value == a + "Worker exited unexpectedly" + b)
              && !(exists a, b :: r.outputTail.value == a + "Failed Tests" + b)
    ensures IsolatedWorkerExit(r) ==> Failed(r)
  {
    var output := if r.outputTail.Some? then r.outputTail.value else "";
    IncludesMeans(output, "[vitest-pool]: Worker forks emitted error.");
    IncludesMeans(output, "Worker exited unexpectedly");
    IncludesMeans(output, "Failed Tests");
    if r.outputTail.None? {
      assert forall a, b :: |a + "Worker exited unexpectedly" + b| > 0;
    }
  }

  // ----------------------------------------------------------- configuration

  datatype Config = Config(partitions: int, limit: int, indexes: seq<int>, merge: bool)

  /** The constructor's guards. */
  ghost predicate Accepted(cfg: Config) {
    && cfg.partitions >= 2
    && cfg.limit >= 1
    && cfg.indexes != [] && Distinct(cfg.indexes)
    && forall i :: i in cfg.indexes ==> 1 <= i <= cfg.partitions
  }

  function N(cfg: Config): nat { |cfg.indexes| }

  function Workers(cfg: Config): nat {
    if cfg.limit <= 0 then 0 else if cfg.limit < N(cfg) then cfg.limit else N(cfg)
  }

  /** Only the shard that owns partition 1 runs the exclusive suites. */
  function Exclusives(cfg: Config): nat {
    if 1 in cfg.indexes then 2 else 0
  }

  const EXCLUSIVE_BLOBS: seq<string> := ["exclusive-resource-bound.json", "exclusive-persistent-state.json"]

  function PartitionBlob(index: int): string {
    "partition-" + Numeral(if index < 0 then 0 else index) + ".json"
  }

  function ExpectedBlobs(cfg: Config): seq<string> {
    seq(N(cfg), i requires 0 <= i < N(cfg) => PartitionBlob(cfg.indexes[i])) + EXCLUSIVE_BLOBS[..Exclusives(cfg)]
  }

  // ------------------------------------------------------------- the machine

  /** One launch of a child command; a partition has a first attempt and possibly another. */
  datatype Launch = First(pos: nat) | Again(pos: nat) | Exclusive(suite: nat) | Merge

  datatype Event = Started(launch: Launch) | Ended(launch: Launch, result: Result) | Listed(names: seq<string>)

  datatype Phase =
    | Pooling
    | Retrying(pos: nat)
    | Rerunning(pos: nat)
    | Excluding(suite: nat)
    | RunningExclusive(suite: nat)
    | Checking
    | Reporting
    | Merging
    | Done(code: int)
    | Threw

  /** `pool.results` is the script's `results` array in every phase; `log` records what happened. */
  datatype State = State(phase: Phase, pool: W.Pool<Result>, log: seq<Event>)

  datatype Act = Pooled(a: W.Action<Result>) | Join | Proceed | Finish(result: Result) | Inspect(names: seq<string>)

  function Initial(cfg: Config): State {
    State(Pooling, W.Start(Workers(cfg)), [])
  }

  ghost predicate Enabled(cfg: Config, s: State, a: Act) {
    match a
    case Pooled(p) => s.phase.Pooling? && W.Enabled(N(cfg), s.pool, p)
    case Join => s.phase.Pooling? && W.Stopped(s.pool)
    case Proceed => s.phase.Retrying? || s.phase.Excluding? || s.phase.Reporting?
    case Finish(_) => s.phase.Rerunning? || s.phase.RunningExclusive? || s.phase.Merging?
    case Inspect(names) => s.phase.Checking? && Distinct(names)
  }

  function PoolEvents(s: State, a: W.Action<Result>): seq<Event>
    requires a.w < |s.pool.workers| && (a.Complete? ==> s.pool.workers[a.w].Busy?)
  {
    match a
    case Claim(_) => [Started(First(s.pool.next))]
    case Complete(w, r) => [Ended(First(s.pool.workers[w].index), r)]
    case Retire(_) => []
  }

  predicate AnyFailed(results: map<nat, Result>) {
    exists i :: i in results && Failed(results[i])
  }

  function Next(cfg: Config, s: State, a: Act): State
    requires Enabled(cfg, s, a)
  {
    var n := N(cfg);
    var results := s.pool.results;
    match a
    case Pooled(p) => State(Pooling, W.Next(n, s.pool, p), s.log + PoolEvents(s, p))
    case Join => s.(phase := Retrying(0))
    case Proceed =>
      (match s.phase
       case Retrying(p) =>
         if p >= n then s.(phase := Excluding(0))
         else if p !in results then s.(phase := Threw)
         else if !IsolatedWorkerExit(results[p]) then s.(phase := Retrying(p + 1))
         else s.(phase := Rerunning(p), log := s.log + [Started(Again(p))])
       case Excluding(j) =>
         if j >= Exclusives(cfg) then s.(phase := Checking)
         else s.(phase := RunningExclusive(j), log := s.log + [Started(Exclusive(j))])
       case Reporting => s.(phase := Merging, log := s.log + [Started(Merge)]))
    case Finish(r) =>
      (match s.phase
       case Rerunning(p) => State(Retrying(p + 1), s.pool.(results := results[p := r]), s.log + [Ended(Again(p), r)])
       case RunningExclusive(j) => State(Excluding(j + 1), s.pool.(results := results[n + j := r]), s.log + [Ended(Exclusive(j), r)])
       case Merging => s.(phase := Done(if AnyFailed(results) || Failed(r) then 1 else 0), log := s.log + [Ended(Merge, r)]))
    case Inspect(names) =>
      var log := s.log + [Listed(names)];
      if Sort(LeqText, names) != Sort(LeqText, ExpectedBlobs(cfg)) then s.(phase := Threw, log := log)
      else if !cfg.merge then s.(phase := Done(if AnyFailed(results) then 1 else 0), log := log)
      else s.(phase := Reporting, log := log)
  }

  datatype Execution = Execution(states: seq<State>, acts: seq<Act>)

  ghost predicate IsRun(cfg: Config, x: Execution) {
    && |x.states| == |x.acts| + 1
    && x.states[0] == Initial(cfg)
    && forall p :: 0 <= p < |x.acts| ==> Enabled(cfg, x.states[p], x.acts[p]) && x.states[p + 1] == Next(cfg, x.states[p], x.acts[p])
  }

  // ------------------------------------------------------- reading the log

  function OpenAfter(open: set<Launch>, e: Event): set<Launch> {
    match e
    case Started(c) => open + {c}
    case Ended(c, _) => open - {c}
    case Listed(_) => open
  }

  /** The launches started and not yet ended. */
  function Open(log: seq<Event>): set<Launch> {
    if log == [] then {} else OpenAfter(Open(log[..|log| - 1]), log[|log| - 1])
  }

  /** The result of a launch, once it has ended. */
  function Outcome(log: seq<Event>, c: Launch): Option<Result> {
    if log == [] then None
    else if log[|log| - 1].Ended? && log[|log| - 1].launch == c then Some(log[|log| - 1].result)
    else Outcome(log[..|log| - 1], c)
  }

  /** The result of a partition's last attempt. */
  function LastAttempt(log: seq<Event>, pos: nat): Option<Result> {
    if Outcome(log, Again(pos)).Some? then Outcome(log, Again(pos)) else Outcome(log, First(pos))
  }

  /** What may happen while `open` is running: first attempts share the pool, everything else runs alone. */
  ghost predicate MayHappen(limit: nat, open: set<Launch>, e: Event) {
    e.Started? ==>
      if e.launch.First? then |open| < limit && forall c :: c in open ==> c.First? else open == {}
  }

  ghost predicate Safe(limit: nat, log: seq<Event>) {
    log == [] ||
    (Safe(limit, log[..|log| - 1]) && MayHappen(limit, Open(log[..|log| - 1]), log[|log| - 1]))
  }

  ghost predicate StartedOnce(log: seq<Event>) {
    log == [] ||
    (StartedOnce(log[..|log| - 1]) && (log[|log| - 1].Started? ==> log[|log| - 1] !in log[..|log| - 1]))
  }

  ghost predicate GoodListing(cfg: Config, e: Event) {
    e.Listed? && Distinct(e.names) && forall b :: b in e.names <==> b in ExpectedBlobs(cfg)
  }

  /** Every merge start directly follows a listing of exactly the expected blobs. */
  ghost predicate MergeFollowsListing(cfg: Config, log: seq<Event>) {
    forall q :: 0 <= q < |log| && log[q] == Started(Merge) ==> q > 0 && GoodListing(cfg, log[q - 1])
  }

  // ------------------------------------------------------------- invariant

  /** How far the run has come: partitions started, partitions examined for a retry, suites started, merge started. */
  datatype Progress = Progress(firsts: nat, examined: nat, suites: nat, merged: bool)

  function ProgressOf(cfg: Config, s: State): Progress {
    var n, e := N(cfg), Exclusives(cfg);
    match s.phase
    case Pooling => Progress(s.pool.next, 0, 0, false)
    case Retrying(p) => Progress(n, p, 0, false)
    case Rerunning(p) => Progress(n, p + 1, 0, false)
    case Excluding(j) => Progress(n, n, j, false)
    case RunningExclusive(j) => Progress(n, n, j + 1, false)
    case Checking => Progress(n, n, e, false)
    case Reporting => Progress(n, n, e, false)
    case Merging => Progress(n, n, e, true)
    case Done(_) => Progress(n, n, e, cfg.merge)
    case Threw => Progress(n, n, e, false)
  }

  ghost function BusyFirsts(ws: seq<W.Worker>): set<Launch> {
    set w | 0 <= w < |ws| && ws[w].Busy? :: First(ws[w].index)
  }

  ghost function Running(s: State): set<Launch> {
    match s.phase
    case Pooling => BusyFirsts(s.pool.workers)
    case Rerunning(p) => {Again(p)}
    case RunningExclusive(j) => {Exclusive(j)}
    case Merging => {Merge}
    case _ => {}
  }

  ghost predicate Retryable(log: seq<Event>, i: nat) {
    Outcome(log, First(i)).Some? && IsolatedWorkerExit(Outcome(log, First(i)).value)
  }

  /** The launches a run this far along has started. */
  ghost predicate Deserved(g: Progress, log: seq<Event>, c: Launch) {
    match c
    case First(i) => i < g.firsts
    case Again(i) => i < g.examined && Retryable(log, i)
    case Exclusive(j) => j < g.suites
    case Merge => g.merged
  }

  /** The launches started are exactly the deserved ones, and those not running have an outcome. */
  ghost predicate Launches(g: Progress, running: set<Launch>, log: seq<Event>) {
    && (forall c :: Started(c) in log <==> Deserved(g, log, c))
    && Open(log) == running
    && (forall c :: Outcome(log, c).Some? <==> Started(c) in log && c !in running)
  }

  /** The results array holds last attempts, then exclusive suites. */
  ghost predicate Slots(n: nat, results: map<nat, Result>, log: seq<Event>) {
    && (forall i: nat :: i < n ==> (i in results <==> LastAttempt(log, i).Some?))
    && (forall i: nat :: i < n && i in results ==> Some(results[i]) == LastAttempt(log, i))
    && (forall j: nat :: n + j in results <==> Outcome(log, Exclusive(j)).Some?)
    && (forall j: nat :: n + j in results ==> Some(results[n + j]) == Outcome(log, Exclusive(j)))
  }

  ghost predicate LogInv(n: nat, g: Progress, running: set<Launch>, results: map<nat, Result>, log: seq<Event>) {
    Launches(g, running, log) && Slots(n, results, log)
  }

  ghost predicate Inv(cfg: Config, s: State) {
    && (s.phase.Pooling? ==> W.Inv(N(cfg), s.pool) && |s.pool.workers| == Workers(cfg))
    && (s.phase.Reporting? || s.phase.Merging? ==> cfg.merge)
    && ProgressOf(cfg, s).examined <= N(cfg)
    && ProgressOf(cfg, s).suites <= Exclusives(cfg)
    && LogInv(N(cfg), ProgressOf(cfg, s), Running(s), s.pool.results, s.log)
  }

  /** Only a wrong listing throws, and only a right one leads to a merge. */
  ghost predicate Listings(cfg: Config, s: State) {
    && (s.phase.Threw? ==> s.log != [] && s.log[|s.log| - 1].Listed? && !GoodListing(cfg, s.log[|s.log| - 1]))
    && (s.phase.Reporting? ==> s.log != [] && GoodListing(cfg, s.log[|s.log| - 1]))
    && MergeFollowsListing(cfg, s.log)
  }

  ghost predicate Succeeded(r: Option<Result>) { r.Some? && !Failed(r.value) }

  /** Every partition's last attempt and every exclusive suite succeeded. */
  ghost predicate SuitesSucceeded(cfg: Config, log: seq<Event>) {
    && (forall i: nat :: i < N(cfg) ==> Succeeded(LastAttempt(log, i)))
    && (forall j: nat :: j < Exclusives(cfg) ==> Succeeded(Outcome(log, Exclusive(j))))
  }

  /** And so did any requested merge. */
  ghost predicate AllSucceeded(cfg: Config, log: seq<Event>) {
    SuitesSucceeded(cfg, log) && (cfg.merge ==> Succeeded(Outcome(log, Merge)))
  }

  ghost predicate Verdict(cfg: Config, s: State) {
    s.phase.Done? ==> s.phase.code == if AllSucceeded(cfg, s.log) then 0 else 1
  }

  // --------------------------------------------------- one event at a time

  lemma SnocOutcomes(log: seq<Event>, e: Event)
    ensures forall c :: Outcome(log + [e], c) == if e.Ended? && e.launch == c then Some(e.result) else Outcome(log, c)
  {
  }

  lemma SnocOpen(log: seq<Event>, e: Event)
    ensures Open(log + [e]) == OpenAfter(Open(log), e)
  {
  }

  lemma SnocHistory(limit: nat, log: seq<Event>, e: Event)
    requires Safe(limit, log) && StartedOnce(log) && MayHappen(limit, Open(log), e) && (e.Started? ==> e !in log)
    ensures Safe(limit, log + [e]) && StartedOnce(log + [e])
  {
  }

  lemma SameOutcomesSameSlots(n: nat, results: map<nat, Result>, log: seq<Event>, after: seq<Event>)
    requires Slots(n, results, log) && forall c :: Outcome(after, c) == Outcome(log, c)
    ensures Slots(n, results, after)
  {
  }

  /** The launch the run is about to start, and its progress afterwards. */
  ghost predicate IsNext(g: Progress, log: seq<Event>, c: Launch, h: Progress) {
    match c
    case First(i) => i == g.firsts && h == g.(firsts := i + 1)
    case Again(i) => i == g.examined && Retryable(log, i) && h == g.(examined := i + 1)
    case Exclusive(j) => j == g.suites && h == g.(suites := j + 1)
    case Merge => !g.merged && h == g.(merged := true)
  }

  lemma StartKeepsLog(n: nat, g: Progress, running: set<Launch>, results: map<nat, Result>, log: seq<Event>, c: Launch, h: Progress)
    requires LogInv(n, g, running, results, log) && IsNext(g, log, c, h)
    ensures LogInv(n, h, running + {c}, results, log + [Started(c)])
  {
    SnocOutcomes(log, Started(c));
    SameOutcomesSameSlots(n, results, log, log + [Started(c)]);
    StartKeepsLaunches(g, running, log, c, h);
  }

  lemma StartKeepsLaunches(g: Progress, running: set<Launch>, log: seq<Event>, c: Launch, h: Progress)
    requires Launches(g, running, log) && IsNext(g, log, c, h)
    ensures Launches(h, running + {c}, log + [Started(c)])
  {
    var after := log + [Started(c)];
    SnocOpen(log, Started(c));
    SnocOutcomes(log, Started(c));
    assert !Deserved(g, log, c);
    forall d
      ensures Started(d) in after <==> Deserved(h, after, d)
    {
      assert Started(d) in after <==> d == c || Started(d) in log;
      match d
      case First(_) =>
      case Again(i) => assert Retryable(after, i) <==> Retryable(log, i);
      case Exclusive(_) =>
      case Merge =>
    }
  }

  function Stored(n: nat, results: map<nat, Result>, c: Launch, r: Result): map<nat, Result> {
    match c
    case First(i) => results[i := r]
    case Again(i) => results[i := r]
    case Exclusive(j) => results[n + j := r]
    case Merge => results
  }

  lemma EndKeepsLog(n: nat, g: Progress, running: set<Launch>, results: map<nat, Result>, log: seq<Event>, c: Launch, r: Result)
    requires LogInv(n, g, running, results, log) && c in running
    requires c.First? ==> g.examined == 0
    requires c.First? || c.Again? ==> c.pos < n
    ensures LogInv(n, g, running - {c}, Stored(n, results, c, r), log + [Ended(c, r)])
  {
    SnocOutcomes(log, Ended(c, r));
    EndKeepsLaunches(g, running, log, c, r);
    if c.First? {
      assert Started(Again(c.pos)) !in log;
    }
    EndKeepsSlots(n, results, log, log + [Ended(c, r)], c, r);
  }

  lemma EndKeepsLaunches(g: Progress, running: set<Launch>, log: seq<Event>, c: Launch, r: Result)
    requires Launches(g, running, log) && c in running && (c.First? ==> g.examined == 0)
    ensures Launches(g, running - {c}, log + [Ended(c, r)])
  {
    var after := log + [Ended(c, r)];
    SnocOpen(log, Ended(c, r));
    SnocOutcomes(log, Ended(c, r));
    OpenIsStarted(log, c);
    forall d
      ensures Started(d) in after <==> Deserved(g, after, d)
    {
      assert Started(d) in after <==> Started(d) in log;
      match d
      case First(_) =>
      case Again(i) => assert c != First(i) ==> (Retryable(after, i) <==> Retryable(log, i));
      case Exclusive(_) =>
      case Merge =>
    }
  }

  lemma {:induction false} OpenIsStarted(log: seq<Event>, c: Launch)
    requires c in Open(log)
    ensures Started(c) in log
  {
    if log != [] && log[|log| - 1] != Started(c) {
      OpenIsStarted(log[..|log| - 1], c);
    }
  }

  lemma EndKeepsSlots(n: nat, results: map<nat, Result>, log: seq<Event>, after: seq<Event>, c: Launch, r: Result)
    requires Slots(n, results, log)
    requires forall d :: Outcome(after, d) == if d == c then Some(r) else Outcome(log, d)
    requires c.First? || c.Again? ==> c.pos < n
    requires c.First? ==> Outcome(log, Again(c.pos)).None?
    ensures Slots(n, Stored(n, results, c, r), after)
  {
    forall i: nat
      ensures LastAttempt(after, i) == if (c.First? || c.Again?) && i == c.pos then Some(r) else LastAttempt(log, i)
    {
    }
  }

  /** Passing over a partition that earns no retry leaves the launches as they were. */
  lemma SkipKeepsLaunches(g: Progress, log: seq<Event>)
    requires Launches(g, {}, log) && !Retryable(log, g.examined)
    ensures Launches(g.(examined := g.examined + 1), {}, log)
  {
  }

  lemma ListingKeepsLaunches(g: Progress, log: seq<Event>, names: seq<string>)
    requires Launches(g, {}, log)
    ensures Launches(g, {}, log + [Listed(names)])
  {
  }

  // ---------------------------------------------------- one action at a time

  lemma {:induction false} IdleWorkerLeavesRoom(ws: seq<W.Worker>)
    ensures |BusyFirsts(ws)| <= |ws|
    ensures (exists w :: 0 <= w < |ws| && !ws[w].Busy?) ==> |BusyFirsts(ws)| < |ws|
  {
    if ws != [] {
      var last := |ws| - 1;
      var front := ws[..last];
      IdleWorkerLeavesRoom(front);
      assert forall w :: 0 <= w < last ==> front[w] == ws[w];
      if ws[last].Busy? {
        assert BusyFirsts(ws) == BusyFirsts(front) + {First(ws[last].index)};
      } else {
        assert BusyFirsts(ws) == BusyFirsts(front);
      }
    }
  }

  lemma ClaimAddsFirst(ws: seq<W.Worker>, w: nat, i: nat)
    requires w < |ws| && !ws[w].Busy?
    ensures BusyFirsts(ws[w := W.Busy(i)]) == BusyFirsts(ws) + {First(i)} && |BusyFirsts(ws)| < |ws|
  {
    IdleWorkerLeavesRoom(ws);
    var after := ws[w := W.Busy(i)];
    assert after[w].Busy?;
    assert forall v :: 0 <= v < |ws| && v != w ==> after[v] == ws[v];
  }

  lemma ClaimKeepsInv(cfg: Config, s: State, w: nat)
    requires Inv(cfg, s) && Enabled(cfg, s, Pooled(W.Claim(w)))
    ensures Inv(cfg, Next(cfg, s, Pooled(W.Claim(w))))
  {
    var t := Next(cfg, s, Pooled(W.Claim(w)));
    W.NextKeepsInv(N(cfg), s.pool, W.Claim(w));
    ClaimAddsFirst(s.pool.workers, w, s.pool.next);
    StartKeepsLog(N(cfg), ProgressOf(cfg, s), Running(s), s.pool.results, s.log, First(s.pool.next), ProgressOf(cfg, t));
  }

  lemma CompleteKeepsInv(cfg: Config, s: State, w: nat, r: Result)
    requires Inv(cfg, s) && Enabled(cfg, s, Pooled(W.Complete(w, r)))
    ensures Inv(cfg, Next(cfg, s, Pooled(W.Complete(w, r))))
  {
    var t, ws := Next(cfg, s, Pooled(W.Complete(w, r))), s.pool.workers;
    W.NextKeepsInv(N(cfg), s.pool, W.Complete(w, r));
    assert BusyFirsts(t.pool.workers) == BusyFirsts(ws) - {First(ws[w].index)} by {
      assert forall v :: 0 <= v < |ws| && v != w ==> t.pool.workers[v] == ws[v];
    }
    EndKeepsLog(N(cfg), ProgressOf(cfg, s), Running(s), s.pool.results, s.log, First(ws[w].index), r);
  }

  lemma RetireKeepsInv(cfg: Config, s: State, w: nat)
    requires Inv(cfg, s) && Enabled(cfg, s, Pooled(W.Retire(w)))
    ensures Inv(cfg, Next(cfg, s, Pooled(W.Retire(w))))
  {
    var t, ws := Next(cfg, s, Pooled(W.Retire(w))), s.pool.workers;
    W.NextKeepsInv(N(cfg), s.pool, W.Retire(w));
    assert t.log == s.log;
    assert BusyFirsts(t.pool.workers) == BusyFirsts(ws) by {
      assert forall v :: 0 <= v < |ws| && v != w ==> t.pool.workers[v] == ws[v];
    }
  }

  lemma JoinKeepsInv(cfg: Config, s: State)
    requires Accepted(cfg) && Inv(cfg, s) && Enabled(cfg, s, Join)
    ensures Inv(cfg, Next(cfg, s, Join))
  {
    assert s.pool.workers[0].Gone?;
    assert BusyFirsts(s.pool.workers) == {};
  }

  /** In the retry pass every partition has its first outcome, which is its last one until it is retried. */
  lemma FirstOutcomeStands(cfg: Config, s: State)
    requires Inv(cfg, s) && s.phase.Retrying? && s.phase.pos < N(cfg)
    ensures s.phase.pos in s.pool.results && Outcome(s.log, First(s.phase.pos)) == Some(s.pool.results[s.phase.pos])
  {
    var p := s.phase.pos;
    assert Started(First(p)) in s.log;
    assert Started(Again(p)) !in s.log;
  }

  lemma RetryKeepsInv(cfg: Config, s: State)
    requires Inv(cfg, s) && s.phase.Retrying?
    ensures Inv(cfg, Next(cfg, s, Proceed))
  {
    var t, g := Next(cfg, s, Proceed), ProgressOf(cfg, s);
    if s.phase.pos < N(cfg) {
      FirstOutcomeStands(cfg, s);
      assert Retryable(s.log, g.examined) <==> IsolatedWorkerExit(s.pool.results[g.examined]);
      RetryKeepsLog(N(cfg), g, s.pool.results, s.log);
      assert ProgressOf(cfg, t) == g.(examined := g.examined + 1);
    }
  }

  lemma RetryKeepsLog(n: nat, g: Progress, results: map<nat, Result>, log: seq<Event>)
    requires LogInv(n, g, {}, results, log)
    ensures var h := g.(examined := g.examined + 1);
            if Retryable(log, g.examined) then LogInv(n, h, {Again(g.examined)}, results, log + [Started(Again(g.examined))])
            else LogInv(n, h, {}, results, log)
  {
    if Retryable(log, g.examined) {
      StartKeepsLog(n, g, {}, results, log, Again(g.examined), g.(examined := g.examined + 1));
      assert {} + {Again(g.examined)} == {Again(g.examined)};
    } else {
      SkipKeepsLaunches(g, log);
    }
  }

  lemma ExcludeKeepsInv(cfg: Config, s: State)
    requires Inv(cfg, s) && s.phase.Excluding?
    ensures Inv(cfg, Next(cfg, s, Proceed))
  {
    var t := Next(cfg, s, Proceed);
    if s.phase.suite < Exclusives(cfg) {
      StartKeepsLog(N(cfg), ProgressOf(cfg, s), {}, s.pool.results, s.log, Exclusive(s.phase.suite), ProgressOf(cfg, t));
    }
  }

  lemma MergeKeepsInv(cfg: Config, s: State)
    requires Inv(cfg, s) && s.phase.Reporting?
    ensures Inv(cfg, Next(cfg, s, Proceed))
  {
    StartKeepsLog(N(cfg), ProgressOf(cfg, s), {}, s.pool.results, s.log, Merge, ProgressOf(cfg, Next(cfg, s, Proceed)));
  }

  /** The end of a command that ran alone. */
  lemma EndKeepsInv(cfg: Config, s: State, t: State, c: Launch, r: Result)
    requires Inv(cfg, s) && Running(s) == {c} && !c.First? && (c.Again? ==> c.pos < N(cfg))
    requires t.phase.Retrying? || t.phase.Excluding? || t.phase.Done?
    requires ProgressOf(cfg, t) == ProgressOf(cfg, s)
    requires t.log == s.log + [Ended(c, r)] && t.pool.results == Stored(N(cfg), s.pool.results, c, r)
    ensures Inv(cfg, t)
  {
    assert {c} - {c} == {};
    EndKeepsLog(N(cfg), ProgressOf(cfg, s), {c}, s.pool.results, s.log, c, r);
  }

  lemma FinishKeepsInv(cfg: Config, s: State, r: Result)
    requires Inv(cfg, s) && Enabled(cfg, s, Finish(r))
    ensures Inv(cfg, Next(cfg, s, Finish(r)))
  {
    var c := match s.phase case Rerunning(p) => Again(p) case RunningExclusive(j) => Exclusive(j) case _ => Merge;
    EndKeepsInv(cfg, s, Next(cfg, s, Finish(r)), c, r);
  }

  lemma ListingKeepsLog(n: nat, g: Progress, results: map<nat, Result>, log: seq<Event>, names: seq<string>)
    requires LogInv(n, g, {}, results, log)
    ensures LogInv(n, g, {}, results, log + [Listed(names)])
  {
    ListingKeepsLaunches(g, log, names);
    SnocOutcomes(log, Listed(names));
    SameOutcomesSameSlots(n, results, log, log + [Listed(names)]);
  }

  lemma InspectKeepsInv(cfg: Config, s: State, names: seq<string>)
    requires Inv(cfg, s) && Enabled(cfg, s, Inspect(names))
    ensures Inv(cfg, Next(cfg, s, Inspect(names)))
  {
    var t := Next(cfg, s, Inspect(names));
    assert ProgressOf(cfg, t) == ProgressOf(cfg, s) && t.log == s.log + [Listed(names)] && t.pool == s.pool && Running(t) == {};
    ListingKeepsLog(N(cfg), ProgressOf(cfg, s), s.pool.results, s.log, names);
  }

  lemma NextKeepsInv(cfg: Config, s: State, a: Act)
    requires Accepted(cfg) && Inv(cfg, s) && Enabled(cfg, s, a)
    ensures Inv(cfg, Next(cfg, s, a))
  {
    match a
    case Pooled(Claim(w)) => ClaimKeepsInv(cfg, s, w);
    case Pooled(Complete(w, r)) => CompleteKeepsInv(cfg, s, w, r);
    case Pooled(Retire(w)) => RetireKeepsInv(cfg, s, w);
    case Join => JoinKeepsInv(cfg, s);
    case Proceed =>
      if s.phase.Retrying? {
        RetryKeepsInv(cfg, s);
      } else if s.phase.Excluding? {
        ExcludeKeepsInv(cfg, s);
      } else {
        MergeKeepsInv(cfg, s);
      }
    case Finish(r) => FinishKeepsInv(cfg, s, r);
    case Inspect(names) => InspectKeepsInv(cfg, s, names);
  }

  /** Nothing starts while something it must not overlap is running, and nothing starts twice. */
  lemma NextKeepsHistory(cfg: Config, s: State, a: Act)
    requires Accepted(cfg) && Inv(cfg, s) && Enabled(cfg, s, a) && Safe(Workers(cfg), s.log) && StartedOnce(s.log)
    ensures Safe(Workers(cfg), Next(cfg, s, a).log) && StartedOnce(Next(cfg, s, a).log)
  {
    var t := Next(cfg, s, a);
    if t.log != s.log {
      var e := t.log[|s.log|];
      assert t.log == s.log + [e];
      if e.Started? {
        assert !Deserved(ProgressOf(cfg, s), s.log, e.launch);
        if a.Pooled? {
          ClaimAddsFirst(s.pool.workers, a.a.w, s.pool.next);
        }
      }
      SnocHistory(Workers(cfg), s.log, e);
    } else {
      assert t.log == s.log;
    }
  }

  // ----------------------------------------------------- verdict and listings

  /** Once all suites are over, the results array fails exactly when some last attempt or suite did. */
  lemma FailuresAreCounted(cfg: Config, s: State)
    requires Launches(ProgressOf(cfg, s), Running(s), s.log) && Slots(N(cfg), s.pool.results, s.log)
    requires s.phase.Checking? || s.phase.Merging?
    ensures SuitesSucceeded(cfg, s.log) <==> !AnyFailed(s.pool.results)
  {
    var results := s.pool.results;
    forall i: nat | i < N(cfg)
      ensures i in results && LastAttempt(s.log, i) == Some(results[i])
    {
      assert Started(First(i)) in s.log && Outcome(s.log, First(i)).Some?;
    }
    forall j: nat | j < Exclusives(cfg)
      ensures N(cfg) + j in results && Outcome(s.log, Exclusive(j)) == Some(results[N(cfg) + j])
    {
      assert Started(Exclusive(j)) in s.log;
    }
    if SuitesSucceeded(cfg, s.log) {
      forall i | i in results
        ensures !Failed(results[i])
      {
        if i < N(cfg) {
          assert Succeeded(LastAttempt(s.log, i));
        } else {
          var j := i - N(cfg);
          assert N(cfg) + j in results;
          assert Started(Exclusive(j)) in s.log;
          assert Succeeded(Outcome(s.log, Exclusive(j)));
        }
      }
    }
  }

  lemma SnocKeepsSuccess(cfg: Config, log: seq<Event>, e: Event)
    requires e.Listed? || (e.Ended? && e.launch.Merge?)
    ensures SuitesSucceeded(cfg, log + [e]) <==> SuitesSucceeded(cfg, log)
  {
    SnocOutcomes(log, e);
    assert forall i :: LastAttempt(log + [e], i) == LastAttempt(log, i);
  }

  lemma NextGivesVerdict(cfg: Config, s: State, a: Act)
    requires Inv(cfg, s) && Enabled(cfg, s, a)
    ensures Verdict(cfg, Next(cfg, s, a))
  {
    if Next(cfg, s, a).phase.Done? {
      FailuresAreCounted(cfg, s);
      var e := if a.Inspect? then Listed(a.names) else Ended(Merge, a.result);
      SnocKeepsSuccess(cfg, s.log, e);
      SnocOutcomes(s.log, e);
    }
  }

  lemma ExpectedBlobsAreDistinct(cfg: Config)
    requires Accepted(cfg)
    ensures Distinct(ExpectedBlobs(cfg))
  {
    var blobs := ExpectedBlobs(cfg);
    forall i, j | 0 <= i < j < |blobs|
      ensures blobs[i] != blobs[j]
    {
      if j < N(cfg) {
        var m, n := cfg.indexes[i], cfg.indexes[j];
        assert m in cfg.indexes && n in cfg.indexes && m != n;
        if blobs[i] == blobs[j] {
          PartitionBlobIsInjective(m, n);
        }
      } else if i < N(cfg) {
        assert blobs[i][0] == 'p' && blobs[j][0] == 'e';
      } else {
        assert i == N(cfg) && j == N(cfg) + 1;
        assert |blobs[i]| != |blobs[j]|;
      }
    }
  }

  lemma PartitionBlobIsInjective(m: nat, n: nat)
    requires PartitionBlob(m) == PartitionBlob(n)
    ensures m == n
  {
    var head, tail := "partition-", ".json";
    var a, b := PartitionBlob(m), PartitionBlob(n);
    assert a[|head|..|a| - |tail|] == Numeral(m) && b[|head|..|b| - |tail|] == Numeral(n);
    NumeralIsInjective(m, n);
  }

  /** The sorted comparison of `assertCompleteBlobSet` is equality of sets. */
  lemma BlobCheckComparesSets(cfg: Config, names: seq<string>)
    requires Accepted(cfg) && Distinct(names)
    ensures Sort(LeqText, names) == Sort(LeqText, ExpectedBlobs(cfg)) <==> GoodListing(cfg, Listed(names))
  {
    TextOrderIsTotal();
    ExpectedBlobsAreDistinct(cfg);
    SortedListsCompareSets(LeqText, names, ExpectedBlobs(cfg));
  }

  /** Nothing but the inspection throws or leads to the report. */
  lemma OnlyInspectionDecides(cfg: Config, s: State, a: Act)
    requires Inv(cfg, s) && Enabled(cfg, s, a) && !a.Inspect?
    ensures !Next(cfg, s, a).phase.Threw? && !Next(cfg, s, a).phase.Reporting?
  {
    if s.phase.Retrying? && s.phase.pos < N(cfg) {
      FirstOutcomeStands(cfg, s);
    }
  }

  lemma MergeStillFollowsListing(cfg: Config, log: seq<Event>, e: Event)
    requires MergeFollowsListing(cfg, log) && (e == Started(Merge) ==> log != [] && GoodListing(cfg, log[|log| - 1]))
    ensures MergeFollowsListing(cfg, log + [e])
  {
  }

  lemma NextKeepsListings(cfg: Config, s: State, a: Act)
    requires Accepted(cfg) && Inv(cfg, s) && Listings(cfg, s) && Enabled(cfg, s, a)
    ensures Listings(cfg, Next(cfg, s, a))
  {
    if a.Inspect? {
      BlobCheckComparesSets(cfg, a.names);
    } else {
      OnlyInspectionDecides(cfg, s, a);
    }
    var log := Next(cfg, s, a).log;
    if log != s.log {
      assert log == s.log + [log[|s.log|]];
      MergeStillFollowsListing(cfg, s.log, log[|s.log|]);
    }
  }

  lemma InitialInv(cfg: Config)
    ensures Inv(cfg, Initial(cfg))
  {
  }

  lemma {:induction false} RunKeepsInv(cfg: Config, x: Execution, p: nat)
    requires Accepted(cfg) && IsRun(cfg, x) && p < |x.states|
    ensures Inv(cfg, x.states[p]) && Listings(cfg, x.states[p]) && Verdict(cfg, x.states[p])
    ensures Safe(Workers(cfg), x.states[p].log) && StartedOnce(x.states[p].log)
  {
    if p == 0 {
      InitialInv(cfg);
    } else {
      RunKeepsInv(cfg, x, p - 1);
      var s, a := x.states[p - 1], x.acts[p - 1];
      NextKeepsInv(cfg, s, a);
      NextKeepsHistory(cfg, s, a);
      NextKeepsListings(cfg, s, a);
      NextGivesVerdict(cfg, s, a);
    }
  }

  // ------------------------------------------------------------ main theorems

  lemma {:induction false} SafeAt(limit: nat, log: seq<Event>, q: nat)
    requires Safe(limit, log) && q < |log|
    ensures MayHappen(limit, Open(log[..q]), log[q])
  {
    if q < |log| - 1 {
      SafeAt(limit, log[..|log| - 1], q);
      assert log[..|log| - 1][..q] == log[..q];
    }
  }

  lemma {:induction false} OnceAt(log: seq<Event>, j: nat, m: nat)
    requires StartedOnce(log) && j < m < |log| && log[m].Started?
    ensures log[j] != log[m]
  {
    if m < |log| - 1 {
      OnceAt(log[..|log| - 1], j, m);
    } else {
      assert log[j] == log[..m][j];
    }
  }

  /**
   * In every run, at every start: a first attempt joins fewer than
   * min(maxConcurrency, n) others, all first attempts; a retry, an exclusive suite
   * and the merge start when nothing is running. No launch happens twice.
   */
  lemma NoForbiddenOverlap(cfg: Config, x: Execution, p: nat)
    requires Accepted(cfg) && IsRun(cfg, x) && p < |x.states|
    ensures var log := x.states[p].log;
            && (forall q :: 0 <= q < |log| ==> MayHappen(Workers(cfg), Open(log[..q]), log[q]))
            && (forall j, m :: 0 <= j < m < |log| && log[m].Started? ==> log[j] != log[m])
  {
    RunKeepsInv(cfg, x, p);
    var log := x.states[p].log;
    forall q | 0 <= q < |log|
      ensures MayHappen(Workers(cfg), Open(log[..q]), log[q])
    {
      SafeAt(Workers(cfg), log, q);
    }
    forall j, m | 0 <= j < m < |log| && log[m].Started?
      ensures log[j] != log[m]
    {
      OnceAt(log, j, m);
    }
  }

  lemma {:induction false} SafeIsSparse(limit: nat, log: seq<Event>)
    requires Safe(limit, log) && limit > 0
    ensures |Open(log)| <= limit
  {
    if log != [] {
      SafeIsSparse(limit, log[..|log| - 1]);
    }
  }

  /** In every state of every run no more commands are open than `maxConcurrency`, nor than there are partitions. */
  lemma ConcurrencyIsBounded(cfg: Config, x: Execution, p: nat)
    requires Accepted(cfg) && IsRun(cfg, x) && p < |x.states|
    ensures |Open(x.states[p].log)| <= cfg.limit && |Open(x.states[p].log)| <= |cfg.indexes|
  {
    RunKeepsInv(cfg, x, p);
    SafeIsSparse(Workers(cfg), x.states[p].log);
  }

  /** The pool after `m` claims by the first `m` workers. */
  ghost predicate FilledUpTo(cfg: Config, s: State, m: nat) {
    && s.phase.Pooling? && s.pool.next == m <= |s.pool.workers|
    && (forall w :: 0 <= w < m ==> s.pool.workers[w] == W.Busy(w))
    && (forall w :: m <= w < |s.pool.workers| ==> s.pool.workers[w].Idle?)
    && Open(s.log) == set i: nat | i < m :: First(i)
  }

  lemma FillOneMore(cfg: Config, s: State, m: nat)
    requires FilledUpTo(cfg, s, m) && m < |s.pool.workers| && m < N(cfg)
    ensures Enabled(cfg, s, Pooled(W.Claim(m))) && FilledUpTo(cfg, Next(cfg, s, Pooled(W.Claim(m))), m + 1)
    ensures |Next(cfg, s, Pooled(W.Claim(m))).pool.workers| == |s.pool.workers|
  {
    SnocOpen(s.log, Started(First(m)));
    assert (set i: nat | i < m + 1 :: First(i)) == (set i: nat | i < m :: First(i)) + {First(m)};
  }

  lemma {:induction false} FillingRun(cfg: Config, m: nat) returns (x: Execution)
    requires Accepted(cfg) && m <= cfg.limit && m <= |cfg.indexes|
    ensures IsRun(cfg, x) && |x.states| == m + 1
    ensures FilledUpTo(cfg, x.states[m], m) && |x.states[m].pool.workers| == |x.states[0].pool.workers|
  {
    if m == 0 {
      x := Execution([Initial(cfg)], []);
    } else {
      var y := FillingRun(cfg, m - 1);
      var s, a := y.states[m - 1], Pooled(W.Claim(m - 1));
      assert y.states[0] == Initial(cfg);
      FillOneMore(cfg, s, m - 1);
      x := Execution(y.states + [Next(cfg, s, a)], y.acts + [a]);
      forall p | 0 <= p < |x.acts|
        ensures Enabled(cfg, x.states[p], x.acts[p]) && x.states[p + 1] == Next(cfg, x.states[p], x.acts[p])
      {
        if p < m - 1 {
          assert y.states[p + 1] == Next(cfg, y.states[p], y.acts[p]);
        }
      }
    }
  }

  lemma {:induction false} CountOfFirsts(m: nat)
    ensures |set i: nat | i < m :: First(i)| == m
  {
    if m > 0 {
      CountOfFirsts(m - 1);
      assert (set i: nat | i < m :: First(i)) == (set i: nat | i < m - 1 :: First(i)) + {First(m - 1)};
    } else {
      assert (set i: nat | i < m :: First(i)) == {};
    }
  }

  /** And the bound is reached: some run has min(maxConcurrency, partitions) first attempts open at once. */
  lemma ConcurrencyIsReached(cfg: Config) returns (x: Execution)
    requires Accepted(cfg)
    ensures IsRun(cfg, x)
    ensures var last := x.states[|x.states| - 1];
            && |Open(last.log)| == (if cfg.limit < |cfg.indexes| then cfg.limit else |cfg.indexes|)
            && forall c :: c in Open(last.log) ==> c.First?
  {
    var m := if cfg.limit < |cfg.indexes| then cfg.limit else |cfg.indexes|;
    x := FillingRun(cfg, m);
    CountOfFirsts(m);
  }

  /** The blobs expected are one for each partition of the shard, and two more from the shard that owns partition 1. */
  lemma ExpectedBlobsAre(cfg: Config, b: string)
    requires Accepted(cfg)
    ensures b in ExpectedBlobs(cfg) <==>
              || (exists i: nat :: i in cfg.indexes && b == "partition-" + Numeral(i) + ".json")
              || (1 in cfg.indexes && (b == "exclusive-resource-bound.json" || b == "exclusive-persistent-state.json"))
  {
    var blobs := ExpectedBlobs(cfg);
    if b in blobs {
      var k :| 0 <= k < |blobs| && blobs[k] == b;
      if k < N(cfg) {
        assert cfg.indexes[k] in cfg.indexes;
        var i: nat := cfg.indexes[k];
        assert b == "partition-" + Numeral(i) + ".json";
      }
    }
    if i: nat :| i in cfg.indexes && b == "partition-" + Numeral(i) + ".json" {
      var k :| 0 <= k < N(cfg) && cfg.indexes[k] == i;
      assert blobs[k] == b;
    }
    if 1 in cfg.indexes {
      assert blobs[N(cfg)] == EXCLUSIVE_BLOBS[0] && blobs[N(cfg) + 1] == EXCLUSIVE_BLOBS[1];
    }
  }

  ghost predicate PastRetries(s: State) {
    !s.phase.Pooling? && !s.phase.Retrying? && !s.phase.Rerunning?
  }

  /** A partition is retried only after an isolated worker exit, and once the retry pass is over, exactly then. */
  lemma RetriedExactlyAfterIsolatedExit(cfg: Config, x: Execution, p: nat, i: nat)
    requires Accepted(cfg) && IsRun(cfg, x) && p < |x.states| && i < N(cfg)
    ensures Started(Again(i)) in x.states[p].log ==> Retryable(x.states[p].log, i)
    ensures PastRetries(x.states[p]) ==> Outcome(x.states[p].log, First(i)).Some?
    ensures PastRetries(x.states[p]) ==> (Started(Again(i)) in x.states[p].log <==> Retryable(x.states[p].log, i))
  {
    RunKeepsInv(cfg, x, p);
    var s := x.states[p];
    assert Started(First(i)) in s.log <==> Deserved(ProgressOf(cfg, s), s.log, First(i));
  }

  /** The merge is started only straight after a directory listing that equals the expected blob set. */
  lemma MergeStartsOnExactBlobSet(cfg: Config, x: Execution, p: nat, q: nat)
    requires Accepted(cfg) && IsRun(cfg, x) && p < |x.states|
    requires q < |x.states[p].log| && x.states[p].log[q] == Started(Merge)
    ensures cfg.merge && q > 0 && GoodListing(cfg, x.states[p].log[q - 1])
  {
    RunKeepsInv(cfg, x, p);
    var s := x.states[p];
    assert Started(Merge) in s.log;
    assert Deserved(ProgressOf(cfg, s), s.log, Merge);
  }

  /** A run that returns, returns 0 exactly when every last attempt, every exclusive suite and any requested merge succeeded. */
  lemma ExitCodeIsVerdict(cfg: Config, x: Execution, p: nat)
    requires Accepted(cfg) && IsRun(cfg, x) && p < |x.states| && x.states[p].phase.Done?
    ensures x.states[p].phase.code in {0, 1}
    ensures x.states[p].phase.code == 0 <==> AllSucceeded(cfg, x.states[p].log)
    ensures forall i: nat :: i < N(cfg) ==> LastAttempt(x.states[p].log, i).Some?
  {
    RunKeepsInv(cfg, x, p);
    forall i: nat | i < N(cfg)
      ensures LastAttempt(x.states[p].log, i).Some?
    {
      RetriedExactlyAfterIsolatedExit(cfg, x, p, i);
    }
  }

  ghost predicate PastExclusives(s: State) {
    s.phase.Checking? || s.phase.Reporting? || s.phase.Merging? || s.phase.Done? || s.phase.Threw?
  }

  ghost predicate Covered(shards: seq<Config>, i: int) {
    exists t :: 0 <= t < |shards| && i in shards[t].indexes
  }

  /** Of shards whose disjoint index lists cover all partitions, exactly one runs the exclusive suites. */
  lemma ExclusiveSuitesRunInOneShard(shards: seq<Config>, xs: seq<Execution>, partitions: nat) returns (owner: nat)
    requires |shards| == |xs| && partitions >= 2
    requires forall t :: 0 <= t < |shards| ==> Accepted(shards[t]) && IsRun(shards[t], xs[t])
    requires forall t :: 0 <= t < |shards| ==> |xs[t].states| > 0 && PastExclusives(xs[t].states[|xs[t].states| - 1])
    requires forall t, u, i :: 0 <= t < u < |shards| && i in shards[t].indexes ==> i !in shards[u].indexes
    requires forall i :: 1 <= i <= partitions ==> Covered(shards, i)
    ensures owner < |shards|
    ensures forall t :: 0 <= t < |shards| ==> (Started(Exclusive(0)) in xs[t].states[|xs[t].states| - 1].log <==> t == owner)
    ensures forall t :: 0 <= t < |shards| ==> (Started(Exclusive(1)) in xs[t].states[|xs[t].states| - 1].log <==> t == owner)
  {
    assert Covered(shards, 1);
    owner :| 0 <= owner < |shards| && 1 in shards[owner].indexes;
    forall t | 0 <= t < |shards|
      ensures Started(Exclusive(0)) in xs[t].states[|xs[t].states| - 1].log <==> t == owner
      ensures Started(Exclusive(1)) in xs[t].states[|xs[t].states| - 1].log <==> t == owner
    {
      OwnerRunsSuites(shards[t], xs[t]);
    }
  }

  lemma OwnerRunsSuites(cfg: Config, x: Execution)
    requires Accepted(cfg) && IsRun(cfg, x) && PastExclusives(x.states[|x.states| - 1])
    ensures forall j :: 0 <= j < 2 ==> (Started(Exclusive(j)) in x.states[|x.states| - 1].log <==> 1 in cfg.indexes)
  {
    RunKeepsInv(cfg, x, |x.states| - 1);
    var s := x.states[|x.states| - 1];
    assert forall j: nat :: Started(Exclusive(j)) in s.log <==> Deserved(ProgressOf(cfg, s), s.log, Exclusive(j));
  }

  // -------------------------------------------------- every run ends, none sticks

  function Weight(w: W.Worker): nat {
    match w case Busy(_) => 2 case Idle => 1 case Gone => 0
  }

  function Weights(ws: seq<W.Worker>): nat {
    if ws == [] then 0 else Weight(ws[0]) + Weights(ws[1..])
  }

  lemma {:induction false} WeightsUpdate(ws: seq<W.Worker>, i: nat, w: W.Worker)
    requires i < |ws|
    ensures Weights(ws[i := w]) == Weights(ws) - Weight(ws[i]) + Weight(w)
  {
    if i == 0 {
      assert ws[0 := w][1..] == ws[1..];
    } else {
      WeightsUpdate(ws[1..], i - 1, w);
      assert ws[i := w][1..] == ws[1..][i - 1 := w];
    }
  }

  ghost function Rank(cfg: Config, s: State): int {
    var n, e := N(cfg), Exclusives(cfg);
    match s.phase
    case Pooling => 3 * (n - s.pool.next) + Weights(s.pool.workers) + 2 * n + 2 * e + 6
    case Retrying(p) => 2 * (n - p) + 2 * e + 5
    case Rerunning(p) => 2 * (n - p) + 2 * e + 4
    case Excluding(j) => 2 * (e - j) + 4
    case RunningExclusive(j) => 2 * (e - j) + 3
    case Checking => 3
    case Reporting => 2
    case Merging => 1
    case Done(_) => 0
    case Threw => 0
  }

  lemma NextLowersRank(cfg: Config, s: State, a: Act)
    requires Enabled(cfg, s, a) && (s.phase.Pooling? ==> s.pool.next <= N(cfg))
    requires ProgressOf(cfg, s).examined <= N(cfg) && ProgressOf(cfg, s).suites <= Exclusives(cfg)
    ensures 0 <= Rank(cfg, Next(cfg, s, a)) < Rank(cfg, s)
  {
    if a.Pooled? {
      PoolLowersWeight(N(cfg), s.pool, a.a);
    }
  }

  lemma PoolLowersWeight(n: nat, s: W.Pool<Result>, a: W.Action<Result>)
    requires s.next <= n && W.Enabled(n, s, a)
    ensures var t := W.Next(n, s, a);
            t.next <= n && 3 * (n - t.next) + Weights(t.workers) < 3 * (n - s.next) + Weights(s.workers)
  {
    var t := W.Next(n, s, a);
    WeightsUpdate(s.workers, a.w, t.workers[a.w]);
  }

  /** No run is longer than the rank of its first state. */
  lemma {:induction false} RunsAreBounded(cfg: Config, x: Execution, p: nat)
    requires Accepted(cfg) && IsRun(cfg, x) && p < |x.states|
    ensures p + Rank(cfg, x.states[p]) <= Rank(cfg, Initial(cfg)) && Rank(cfg, x.states[p]) >= 0
  {
    if p > 0 {
      RunsAreBounded(cfg, x, p - 1);
      RunKeepsInv(cfg, x, p - 1);
      NextLowersRank(cfg, x.states[p - 1], x.acts[p - 1]);
    }
  }

  /** An action that takes a result or a listing takes the given one. */
  predicate Carries(a: Act, r: Result, names: seq<string>) {
    match a
    case Pooled(Complete(_, result)) => result == r
    case Finish(result) => result == r
    case Inspect(listing) => listing == names
    case _ => true
  }

  /** Short of returning or throwing, some action is always possible, whatever result or listing the environment chooses. */
  lemma NeverStuck(cfg: Config, x: Execution, p: nat, r: Result, names: seq<string>)
    requires Accepted(cfg) && IsRun(cfg, x) && p < |x.states| && Distinct(names)
    requires !x.states[p].phase.Done? && !x.states[p].phase.Threw?
    ensures exists a :: Enabled(cfg, x.states[p], a) && Carries(a, r, names)
  {
    var s := x.states[p];
    if s.phase.Pooling? {
      if W.Stopped(s.pool) {
        assert Enabled(cfg, s, Join) && Carries(Join, r, names);
      } else {
        var w :| 0 <= w < |s.pool.workers| && !s.pool.workers[w].Gone?;
        var a := if s.pool.workers[w].Busy? then W.Complete(w, r) else if s.pool.next < N(cfg) then W.Claim(w) else W.Retire(w);
        assert Enabled(cfg, s, Pooled(a)) && Carries(Pooled(a), r, names);
      }
    } else {
      assert Carries(Proceed, r, names) && Carries(Finish(r), r, names) && Carries(Inspect(names), r, names);
      assert Enabled(cfg, s, Proceed) || Enabled(cfg, s, Finish(r)) || Enabled(cfg, s, Inspect(names));
    }
  }
}
