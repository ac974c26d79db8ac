/**
 * A pool of async workers that share one cursor over `n` commands and write each
 * result into the slot of the command they claimed. Reading and bumping the
 * cursor is one action, because the scripts have no `await` between the two;
 * completion is a separate action, so a sequence of actions is an interleaving.
 */
module WorkerPool {
  datatype Worker = Idle | Busy(index: nat) | Gone

  datatype Pool<R> = Pool(next: nat, workers: seq<Worker>, results: map<nat, R>)

  datatype Action<R> = Claim(w: nat) | Retire(w: nat) | Complete(w: nat, result: R)

  function Start<R>(k: nat): Pool<R> {
    Pool(0, seq(k, _ => Idle), map[])
  }

  predicate Enabled<R>(n: nat, s: Pool<R>, a: Action<R>) {
    a.w < |s.workers| &&
    match a
    case Claim(w) => s.workers[w].Idle? && s.next < n
    case Retire(w) => s.workers[w].Idle? && s.next >= n
    case Complete(w, _) => s.workers[w].Busy?
  }

  function Next<R>(n: nat, s: Pool<R>, a: Action<R>): Pool<R>
    requires Enabled(n, s, a)
  {
    match a
    case Claim(w) => s.(next := s.next + 1, workers := s.workers[w := Busy(s.next)])
    case Retire(w) => s.(workers := s.workers[w := Gone])
    case Complete(w, r) => s.(workers := s.workers[w := Idle], results := s.results[s.workers[w].index := r])
  }

  /** One interleaving: the states passed through and the action between each two. */
  datatype Execution<R> = Execution(states: seq<Pool<R>>, acts: seq<Action<R>>)

  ghost predicate IsRun<R>(n: nat, k: nat, x: Execution<R>) {
    && |x.states| == |x.acts| + 1
    && x.states[0] == Start(k)
    && forall p :: 0 <= p < |x.acts| ==> Enabled(n, x.states[p], x.acts[p]) && x.states[p + 1] == Next(n, x.states[p], x.acts[p])
  }

  // ---------------------------------------------------------------- invariant

  ghost predicate Inv<R>(n: nat, s: Pool<R>) {
    && s.next <= n
    && (forall w :: 0 <= w < |s.workers| && s.workers[w].Busy? ==> s.workers[w].index < s.next && s.workers[w].index !in s.results)
    && (forall v, w :: 0 <= v < w < |s.workers| && s.workers[v].Busy? && s.workers[w].Busy? ==> s.workers[v].index != s.workers[w].index)
    && (forall i :: i in s.results ==> i < s.next)
    && (forall i :: 0 <= i < s.next && i !in s.results ==> Busy(i) in s.workers)
    && (forall w :: 0 <= w < |s.workers| && s.workers[w].Gone? ==> s.next == n)
  }

  lemma NextKeepsInv<R>(n: nat, s: Pool<R>, a: Action<R>)
    requires Inv(n, s) && Enabled(n, s, a)
    ensures Inv(n, Next(n, s, a)) && |Next(n, s, a).workers| == |s.workers|
  {
    var t := Next(n, s, a);
    forall i | 0 <= i < t.next && i !in t.results
      ensures Busy(i) in t.workers
    {
      if a.Claim? && i == s.next {
        assert t.workers[a.w] == Busy(i);
      } else {
        var v :| 0 <= v < |s.workers| && s.workers[v] == Busy(i);
        assert v != a.w;
        assert t.workers[v] == Busy(i);
      }
    }
  }

  lemma {:induction false} RunKeepsInv<R>(n: nat, k: nat, x: Execution<R>, p: nat)
    requires IsRun(n, k, x) && p < |x.states|
    ensures Inv(n, x.states[p]) && |x.states[p].workers| == k
  {
    if p > 0 {
      RunKeepsInv(n, k, x, p - 1);
      NextKeepsInv(n, x.states[p - 1], x.acts[p - 1]);
    }
  }

  // ------------------------------------------------------------- whole runs

  /** Action `j` is the claim of index `i`. */
  ghost predicate ClaimsAt<R>(x: Execution<R>, j: nat, i: nat) {
    j < |x.acts| < |x.states| && x.acts[j].Claim? && x.states[j].next == i
  }

  /** The first `p` actions claim index `i`. */
  ghost predicate Claimed<R>(x: Execution<R>, p: nat, i: nat) {
    exists j: nat :: j < p && ClaimsAt(x, j, i)
  }

  /** After `p` actions worker `w` is still at its claim `j` of index `i`. */
  ghost predicate Holding<R>(x: Execution<R>, p: nat, j: nat, w: nat, i: nat) {
    && j < p <= |x.acts|
    && ClaimsAt(x, j, i) && x.acts[j].w == w
    && forall q :: j < q < p ==> x.acts[q].w != w
  }

  /** Index `i` was claimed at `j`, and action `m` is the claiming worker's next one and delivers `r`. */
  ghost predicate Produced<R>(x: Execution<R>, p: nat, j: nat, m: nat, i: nat, r: R) {
    && j < m < p <= |x.acts|
    && ClaimsAt(x, j, i)
    && x.acts[m] == Complete(x.acts[j].w, r)
    && forall q :: j < q < m ==> x.acts[q].w != x.acts[j].w
  }

  lemma {:induction false} CursorAdvances<R>(n: nat, k: nat, x: Execution<R>, j: nat, m: nat)
    requires IsRun(n, k, x) && j <= m < |x.states|
    ensures x.states[j].next <= x.states[m].next
    decreases m - j
  {
    if j < m {
      CursorAdvances(n, k, x, j + 1, m);
    }
  }

  /** The cursor never goes back, so two claims never take the same index. */
  lemma {:induction false} ClaimsAreDistinct<R>(n: nat, k: nat, x: Execution<R>, j: nat, m: nat, i: nat)
    requires IsRun(n, k, x) && ClaimsAt(x, j, i) && ClaimsAt(x, m, i)
    ensures j == m
  {
    if j < m {
      CursorAdvances(n, k, x, j + 1, m);
    } else if m < j {
      CursorAdvances(n, k, x, m + 1, j);
    }
  }

  /** What the first `p` actions say of the state they lead to: who is busy with which claim, where each result came from. */
  ghost predicate Explained<R>(x: Execution<R>, p: nat)
    requires p < |x.states|
  {
    var s := x.states[p];
    && (forall i :: 0 <= i < s.next ==> Claimed(x, p, i))
    && (forall w :: 0 <= w < |s.workers| && s.workers[w].Busy? ==> exists j :: Holding(x, p, j, w, s.workers[w].index))
    && (forall i :: i in s.results ==> exists j, m :: Produced(x, p, j, m, i, s.results[i]))
  }

  lemma {:induction false} HistoryExplains<R>(n: nat, k: nat, x: Execution<R>, p: nat)
    requires IsRun(n, k, x) && p < |x.states|
    ensures Explained(x, p)
  {
    if p > 0 {
      HistoryExplains(n, k, x, p - 1);
      RunKeepsInv(n, k, x, p - 1);
      var s, t, a := x.states[p - 1], x.states[p], x.acts[p - 1];
      assert t == Next(n, s, a);
      forall i | 0 <= i < t.next
        ensures Claimed(x, p, i)
      {
        if i == s.next {
          assert ClaimsAt(x, p - 1, i);
        } else {
          assert Claimed(x, p - 1, i);
        }
      }
      forall w | 0 <= w < |t.workers| && t.workers[w].Busy?
        ensures exists j :: Holding(x, p, j, w, t.workers[w].index)
      {
        HolderIsExplained(n, x, p, w);
      }
      forall i | i in t.results
        ensures exists j, m :: Produced(x, p, j, m, i, t.results[i])
      {
        ResultIsExplained(n, x, p, i);
      }
    }
  }

  lemma HolderIsExplained<R>(n: nat, x: Execution<R>, p: nat, w: nat)
    requires 0 < p < |x.states| == |x.acts| + 1 && Explained(x, p - 1)
    requires Enabled(n, x.states[p - 1], x.acts[p - 1]) && x.states[p] == Next(n, x.states[p - 1], x.acts[p - 1])
    requires w < |x.states[p].workers| && x.states[p].workers[w].Busy?
    ensures exists j :: Holding(x, p, j, w, x.states[p].workers[w].index)
  {
    var s := x.states[p - 1];
    if w == x.acts[p - 1].w {
      assert Holding(x, p, p - 1, w, s.next);
    } else {
      var j :| Holding(x, p - 1, j, w, s.workers[w].index);
      assert Holding(x, p, j, w, s.workers[w].index);
    }
  }

  lemma ResultIsExplained<R>(n: nat, x: Execution<R>, p: nat, i: nat)
    requires 0 < p < |x.states| == |x.acts| + 1 && Explained(x, p - 1)
    requires Enabled(n, x.states[p - 1], x.acts[p - 1]) && x.states[p] == Next(n, x.states[p - 1], x.acts[p - 1])
    requires i in x.states[p].results
    ensures exists j, m :: Produced(x, p, j, m, i, x.states[p].results[i])
  {
    var s, a := x.states[p - 1], x.acts[p - 1];
    if a.Complete? && i == s.workers[a.w].index {
      var j :| Holding(x, p - 1, j, a.w, i);
      assert Produced(x, p, j, p - 1, i, a.result);
    } else {
      var j, m :| Produced(x, p - 1, j, m, i, s.results[i]);
      assert Produced(x, p, j, m, i, s.results[i]);
    }
  }

  ghost function BusyIndexes(ws: seq<Worker>): set<nat> {
    set w | 0 <= w < |ws| && ws[w].Busy? :: ws[w].index
  }

  lemma {:induction false} AtMostOnePerWorker(ws: seq<Worker>)
    ensures |BusyIndexes(ws)| <= |ws|
  {
    if ws != [] {
      var last := |ws| - 1;
      var front := ws[..last];
      AtMostOnePerWorker(front);
      assert forall w :: 0 <= w < last ==> front[w] == ws[w];
      if ws[last].Busy? {
        assert BusyIndexes(ws) == BusyIndexes(front) + {ws[last].index};
      } else {
        assert BusyIndexes(ws) == BusyIndexes(front);
      }
    }
  }

  /**
   * In every interleaving of `k` workers over `n` commands: at most `k` commands
   * run at once, no index is claimed twice, and every index below the cursor is claimed.
   */
  lemma {:induction false} EveryInterleavingIsSafe<R>(n: nat, k: nat, x: Execution<R>, p: nat)
    requires IsRun(n, k, x) && p < |x.states|
    ensures |BusyIndexes(x.states[p].workers)| <= k
    ensures forall j, m, i :: ClaimsAt(x, j, i) && ClaimsAt(x, m, i) ==> j == m
    ensures forall i :: 0 <= i < x.states[p].next ==> Claimed(x, p, i)
  {
    RunKeepsInv(n, k, x, p);
    AtMostOnePerWorker(x.states[p].workers);
    HistoryExplains(n, k, x, p);
    forall j, m, i | ClaimsAt(x, j, i) && ClaimsAt(x, m, i)
      ensures j == m
    {
      ClaimsAreDistinct(n, k, x, j, m, i);
    }
  }

  ghost predicate Stopped<R>(s: Pool<R>) {
    forall w :: 0 <= w < |s.workers| ==> s.workers[w].Gone?
  }

  /** When every worker has stopped, each slot holds what the claimer of that very index delivered, and no slot is empty. */
  lemma {:induction false} StoppedPoolIsComplete<R>(n: nat, k: nat, x: Execution<R>, p: nat)
    requires IsRun(n, k, x) && p < |x.states| && k > 0 && Stopped(x.states[p])
    ensures forall i: nat :: i in x.states[p].results <==> i < n
    ensures forall i :: i in x.states[p].results ==> exists j, m :: Produced(x, p, j, m, i, x.states[p].results[i])
  {
    RunKeepsInv(n, k, x, p);
    HistoryExplains(n, k, x, p);
    var s := x.states[p];
    assert s.workers[0].Gone?;
    forall i: nat | i < n
      ensures i in s.results
    {
      assert Busy(i) !in s.workers;
    }
  }

  // --------------------------------------------------------- the publint pool

  /** `runAll` bumps its cursor before it looks at the target, so the cursor can pass the end. */
  datatype Overshoot<R> = Take(w: nat) | Deliver(w: nat, result: R)

  predicate TakeEnabled<R>(s: Pool<R>, a: Overshoot<R>) {
    a.w < |s.workers| && if a.Take? then s.workers[a.w].Idle? else s.workers[a.w].Busy?
  }

  function TakeNext<R>(n: nat, s: Pool<R>, a: Overshoot<R>): Pool<R>
    requires TakeEnabled(s, a)
  {
    match a
    case Take(w) => s.(next := s.next + 1, workers := s.workers[w := if s.next < n then Busy(s.next) else Gone])
    case Deliver(w, r) => s.(workers := s.workers[w := Idle], results := s.results[s.workers[w].index := r])
  }

  ghost predicate IsRunAll<R>(n: nat, k: nat, states: seq<Pool<R>>, acts: seq<Overshoot<R>>) {
    && |states| == |acts| + 1
    && states[0] == Start(k)
    && forall p :: 0 <= p < |acts| ==> TakeEnabled(states[p], acts[p]) && states[p + 1] == TakeNext(n, states[p], acts[p])
  }

  /** The overshooting cursor, clipped to the number of targets. */
  function Clip<R>(n: nat, s: Pool<R>): Pool<R> {
    s.(next := if s.next < n then s.next else n)
  }

  function Translate<R>(n: nat, s: Pool<R>, a: Overshoot<R>): Action<R> {
    if a.Deliver? then Complete(a.w, a.result) else if s.next < n then Claim(a.w) else Retire(a.w)
  }

  function Shadow<R>(n: nat, states: seq<Pool<R>>, acts: seq<Overshoot<R>>): Execution<R>
    requires |states| == |acts| + 1
  {
    Execution(seq(|states|, i requires 0 <= i < |states| => Clip(n, states[i])),
              seq(|acts|, i requires 0 <= i < |acts| => Translate(n, states[i], acts[i])))
  }

  /** Every run of the overshooting pool is, action for action, a run of the shared-cursor pool. */
  lemma RunAllRefinesPool<R>(n: nat, k: nat, states: seq<Pool<R>>, acts: seq<Overshoot<R>>)
    requires IsRunAll(n, k, states, acts)
    ensures IsRun(n, k, Shadow(n, states, acts))
  {
    var x := Shadow(n, states, acts);
    forall p | 0 <= p < |x.acts|
      ensures Enabled(n, x.states[p], x.acts[p]) && x.states[p + 1] == Next(n, x.states[p], x.acts[p])
    {
      assert TakeEnabled(states[p], acts[p]) && states[p + 1] == TakeNext(n, states[p], acts[p]);
    }
  }

  /** So `runAll` holds a result for every target, delivered by the one worker that took it, never more than `k` at once. */
  lemma RunAllIsComplete<R>(n: nat, k: nat, states: seq<Pool<R>>, acts: seq<Overshoot<R>>, p: nat)
    requires IsRunAll(n, k, states, acts) && p < |states| && k > 0
    ensures |BusyIndexes(states[p].workers)| <= k
    ensures Stopped(states[p]) ==> forall i: nat :: i in states[p].results <==> i < n
    ensures Stopped(states[p]) ==>
              forall i :: i in states[p].results ==> exists j, m :: Produced(Shadow(n, states, acts), p, j, m, i, states[p].results[i])
  {
    var x := Shadow(n, states, acts);
    RunAllRefinesPool(n, k, states, acts);
    EveryInterleavingIsSafe(n, k, x, p);
    if Stopped(states[p]) {
      StoppedPoolIsComplete(n, k, x, p);
    }
  }
}
