/**
 * The hard-halt budget tracker, and any number of threads that each check it before a step and count the step after.
 * The check is two locked sections, so between reading the counters and counting a step other threads get in.
 */
module Budgets {
  import opened Wrappers

  datatype Budget = Budget(
    maxWallClock: Option<real>, maxSteps: Option<int>, maxTokensIn: Option<int>, maxTokensOut: Option<int>)
  {
    predicate IsUnbounded() {
      maxWallClock.None? && maxSteps.None? && maxTokensIn.None? && maxTokensOut.None?
    }
  }

  datatype Trigger = WallClock | StepCount | TokenTotal

  /** What check_or_halt comes to: it returns, or raises. */
  datatype Verdict = Pass | RemoteHalt(reason: string) | BudgetHalt(trigger: Trigger)

  /** The fields behind the lock. */
  datatype Totals = Totals(steps: int, tokensIn: int, tokensOut: int, pending: Option<string>)

  predicate Over(limit: Option<int>, total: int) {
    limit.Some? && total >= limit.value
  }

  /** The budget axes in the order they are looked at. */
  function Judge(b: Budget, elapsed: real, t: Totals): Verdict {
    if b.maxWallClock.Some? && elapsed >= b.maxWallClock.value then BudgetHalt(WallClock)
    else if Over(b.maxSteps, t.steps) then BudgetHalt(StepCount)
    else if Over(b.maxTokensIn, t.tokensIn) || Over(b.maxTokensOut, t.tokensOut) then BudgetHalt(TokenTotal)
    else Pass
  }

  /** A locked section of another thread. */
  datatype Update = Steps(n: int) | Tokens(tokensIn: int, tokensOut: int) | Signal(reason: string)

  function Reason(given: string): string {
    if given == "" then "remote halt" else given
  }

  function Apply(t: Totals, u: Update): Totals {
    match u
    case Steps(n) => t.(steps := t.steps + n)
    case Tokens(i, o) => t.(tokensIn := t.tokensIn + i, tokensOut := t.tokensOut + o)
    case Signal(r) => t.(pending := Some(Reason(r)))
  }

  function ApplyAll(t: Totals, updates: seq<Update>): Totals {
    if updates == [] then t else Apply(ApplyAll(t, updates[..|updates| - 1]), updates[|updates| - 1])
  }

  class BudgetTracker {
    const budget: Budget
    const startedAt: real
    var stepCount: int
    var tokensIn: int
    var tokensOut: int
    var remoteHaltReason: Option<string>

    function Value(): Totals
      reads this
    {
      Totals(stepCount, tokensIn, tokensOut, remoteHaltReason)
    }

    ghost predicate TimeIsUp(now: real) {
      budget.maxWallClock.Some? && now - startedAt >= budget.maxWallClock.value
    }

    ghost predicate StepsAreUp()
      reads this
    {
      budget.maxSteps.Some? && stepCount >= budget.maxSteps.value
    }

    ghost predicate TokensAreUp()
      reads this
    {
      || (budget.maxTokensIn.Some? && tokensIn >= budget.maxTokensIn.value)
      || (budget.maxTokensOut.Some? && tokensOut >= budget.maxTokensOut.value)
    }

    constructor (budget: Budget, startedAt: real)
      ensures this.budget == budget && this.startedAt == startedAt && Value() == Totals(0, 0, 0, None)
    {
      this.budget, this.startedAt := budget, startedAt;
      stepCount, tokensIn, tokensOut, remoteHaltReason := 0, 0, 0, None;
    }

    method IncrementSteps(n: int)
      modifies this
      ensures stepCount == old(stepCount) + n
      ensures tokensIn == old(tokensIn) && tokensOut == old(tokensOut) && remoteHaltReason == old(remoteHaltReason)
      ensures Value() == Apply(old(Value()), Steps(n))
    {
      stepCount := stepCount + n;
    }

    method AddTokens(tokensIn: int, tokensOut: int)
      modifies this
      ensures this.tokensIn == old(this.tokensIn) + tokensIn && this.tokensOut == old(this.tokensOut) + tokensOut
      ensures stepCount == old(stepCount) && remoteHaltReason == old(remoteHaltReason)
      ensures Value() == Apply(old(Value()), Tokens(tokensIn, tokensOut))
    {
      this.tokensIn := this.tokensIn + tokensIn;
      this.tokensOut := this.tokensOut + tokensOut;
    }

    method SignalRemoteHalt(reason: string)
      modifies this
      ensures remoteHaltReason == Some(if reason == "" then "remote halt" else reason)
      ensures stepCount == old(stepCount) && tokensIn == old(tokensIn) && tokensOut == old(tokensOut)
      ensures Value() == Apply(old(Value()), Signal(reason))
    {
      remoteHaltReason := Some(if reason == "" then "remote halt" else reason);
    }

    method Interfere(updates: seq<Update>)
      modifies this
      ensures Value() == ApplyAll(old(Value()), updates)
    {
      for i := 0 to |updates|
        invariant Value() == ApplyAll(old(Value()), updates[..i])
      {
        match updates[i] {
          case Steps(n) => IncrementSteps(n);
          case Tokens(tin, tout) => AddTokens(tin, tout);
          case Signal(r) => SignalRemoteHalt(r);
        }
        assert updates[..i + 1][..i] == updates[..i];
      }
      assert updates[..|updates|] == updates;
    }

    /**
     * check_or_halt, with what other threads do between its two locked sections. A pending remote halt wins over any
     * budget, is cleared, and nothing else changes; one that arrives in between stays pending for a later check.
     */
    method CheckOrHalt(now: real, between: seq<Update>) returns (verdict: Verdict)
      modifies this
      ensures old(remoteHaltReason).Some? ==>
                && verdict == RemoteHalt(old(remoteHaltReason).value) && remoteHaltReason == None
                && stepCount == old(stepCount) && tokensIn == old(tokensIn) && tokensOut == old(tokensOut)
      ensures old(remoteHaltReason).None? ==>
                && Value() == ApplyAll(old(Value()), between)
                && (verdict == BudgetHalt(WallClock) <==> TimeIsUp(now))
                && (verdict == BudgetHalt(StepCount) <==> !TimeIsUp(now) && StepsAreUp())
                && (verdict == BudgetHalt(TokenTotal) <==> !TimeIsUp(now) && !StepsAreUp() && TokensAreUp())
                && (verdict == Pass <==> !TimeIsUp(now) && !StepsAreUp() && !TokensAreUp())
                && verdict == Judge(budget, now - startedAt, Value())
    {
      if remoteHaltReason.Some? {
        verdict := RemoteHalt(remoteHaltReason.value);
        remoteHaltReason := None;
        return;
      }
      Interfere(between);
      if budget.IsUnbounded() {
        return Pass;
      }
      if budget.maxWallClock.Some? {
        var elapsed := now - startedAt;
        if elapsed >= budget.maxWallClock.value {
          return BudgetHalt(WallClock);
        }
      }
      var steps, tin, tout := stepCount, tokensIn, tokensOut;
      if budget.maxSteps.Some? && steps >= budget.maxSteps.value {
        return BudgetHalt(StepCount);
      }
      if budget.maxTokensIn.Some? && tin >= budget.maxTokensIn.value {
        return BudgetHalt(TokenTotal);
      }
      if budget.maxTokensOut.Some? && tout >= budget.maxTokensOut.value {
        return BudgetHalt(TokenTotal);
      }
      return Pass;
    }
  }

  // ----- threads

  /** Where a thread is: outside, between the two locked sections of a check, or past a check and about to count. */
  datatype Thread = Outside | RemoteChecked | Passed

  /** What happened to the remote flag: it was set, or a check looked at it. */
  datatype Entry = Signalled(reason: string) | Looked(raised: Option<string>)

  datatype State = State(totals: Totals, threads: seq<Thread>, log: seq<Entry>)

  /** One locked section, with the thread-local work that follows it. */
  datatype Action =
    | Look(thread: nat)                    // first section of check_or_halt
    | Read(thread: nat, elapsed: real)     // second section: counters read and judged
    | CountStep(thread: nat)               // increment_steps()
    | Leave(thread: nat)                   // a check that no step follows
    | Other(update: Update)                // tokens, signals

  function Initial(k: nat): State {
    State(Totals(0, 0, 0, None), seq(k, _ => Outside), [])
  }

  predicate Enabled(s: State, a: Action) {
    match a
    case Look(i) => i < |s.threads| && s.threads[i].Outside?
    case Read(i, _) => i < |s.threads| && s.threads[i].RemoteChecked?
    case CountStep(i) => i < |s.threads| && s.threads[i].Passed?
    case Leave(i) => i < |s.threads| && s.threads[i].Passed?
    case Other(u) => !u.Steps?
  }

  function Next(b: Budget, s: State, a: Action): State
    requires Enabled(s, a)
  {
    match a
    case Look(i) =>
      if s.totals.pending.Some? then
        s.(totals := s.totals.(pending := None), log := s.log + [Looked(s.totals.pending)])
      else s.(threads := s.threads[i := RemoteChecked], log := s.log + [Looked(None)])
    case Read(i, elapsed) =>
      s.(threads := s.threads[i := if Judge(b, elapsed, s.totals).Pass? then Passed else Outside])
    case CountStep(i) => s.(totals := Apply(s.totals, Steps(1)), threads := s.threads[i := Outside])
    case Leave(i) => s.(threads := s.threads[i := Outside])
    case Other(u) =>
      s.(totals := Apply(s.totals, u), log := if u.Signal? then s.log + [Signalled(Reason(u.reason))] else s.log)
  }

  predicate Possible(b: Budget, s: State, run: seq<Action>)
    decreases |run|
  {
    run == [] || (Enabled(s, run[0]) && Possible(b, Next(b, s, run[0]), run[1..]))
  }

  function After(b: Budget, s: State, run: seq<Action>): State
    requires Possible(b, s, run)
    decreases |run|
  {
    if run == [] then s else After(b, Next(b, s, run[0]), run[1..])
  }

  // ----- the step budget

  function CountPassed(threads: seq<Thread>): nat {
    if threads == [] then 0
    else CountPassed(threads[..|threads| - 1]) + if threads[|threads| - 1].Passed? then 1 else 0
  }

  lemma {:induction false} CountPassedUpdate(threads: seq<Thread>, i: nat, t: Thread)
    requires i < |threads|
    ensures CountPassed(threads[i := t]) ==
            CountPassed(threads) + (if t.Passed? then 1 else 0) - (if threads[i].Passed? then 1 else 0)
    ensures CountPassed(threads) <= |threads|
  {
    var n := |threads| - 1;
    if i < n {
      CountPassedUpdate(threads[..n], i, t);
      assert threads[i := t][..n] == threads[..n][i := t];
    } else {
      assert threads[i := t][..n] == threads[..n];
      CountPassedBound(threads[..n]);
    }
  }

  lemma {:induction false} CountPassedBound(threads: seq<Thread>)
    ensures CountPassed(threads) <= |threads|
    ensures (forall t :: t in threads ==> t.Outside?) ==> CountPassed(threads) == 0
  {
    if threads != [] {
      CountPassedBound(threads[..|threads| - 1]);
      assert threads[|threads| - 1] in threads;
    }
  }

  /** The most steps k threads can count against a limit. */
  function StepBound(limit: int, k: nat): int {
    if limit <= 0 || k == 0 then 0 else limit + k - 1
  }

  /** Counted steps and the steps threads are already cleared for stay within the bound. */
  ghost predicate WithinBudget(limit: int, s: State) {
    s.totals.steps + CountPassed(s.threads) <= StepBound(limit, |s.threads|)
  }

  lemma StepKeepsBudget(b: Budget, s: State, a: Action)
    requires b.maxSteps.Some? && Enabled(s, a) && WithinBudget(b.maxSteps.value, s)
    requires 0 <= s.totals.steps
    ensures WithinBudget(b.maxSteps.value, Next(b, s, a)) && 0 <= Next(b, s, a).totals.steps
    ensures |Next(b, s, a).threads| == |s.threads|
  {
    match a
    case Look(i) => CountPassedUpdate(s.threads, i, RemoteChecked);
    case Read(i, elapsed) =>
      CountPassedUpdate(s.threads, i, Passed);
      CountPassedUpdate(s.threads, i, Outside);
      CountPassedBound(s.threads[i := Passed]);
    case CountStep(i) => CountPassedUpdate(s.threads, i, Outside);
    case Leave(i) => CountPassedUpdate(s.threads, i, Outside);
    case Other(_) =>
  }

  lemma {:induction false} RunKeepsBudget(b: Budget, s: State, run: seq<Action>)
    requires b.maxSteps.Some? && Possible(b, s, run) && WithinBudget(b.maxSteps.value, s) && 0 <= s.totals.steps
    ensures WithinBudget(b.maxSteps.value, After(b, s, run)) && |After(b, s, run).threads| == |s.threads|
    decreases |run|
  {
    hide WithinBudget, Next;
    if run != [] {
      StepKeepsBudget(b, s, run[0]);
      RunKeepsBudget(b, Next(b, s, run[0]), run[1..]);
    }
  }

  /** No interleaving of k threads counts more than max_steps + k - 1 steps: one thread alone never passes the limit. */
  lemma StepsBounded(b: Budget, k: nat, run: seq<Action>)
    requires b.maxSteps.Some? && Possible(b, Initial(k), run)
    ensures After(b, Initial(k), run).totals.steps <= StepBound(b.maxSteps.value, k)
  {
    CountPassedBound(Initial(k).threads);
    RunKeepsBudget(b, Initial(k), run);
  }

  lemma {:induction false} OneMore(b: Budget, s: State, run: seq<Action>, a: Action)
    requires Possible(b, s, run) && Enabled(After(b, s, run), a)
    ensures Possible(b, s, run + [a]) && After(b, s, run + [a]) == Next(b, After(b, s, run), a)
    decreases |run|
  {
    hide Next, Enabled;
    if run == [] {
      assert run + [a] == [a] && [a][1..] == [];
    } else {
      OneMore(b, Next(b, s, run[0]), run[1..], a);
      assert (run + [a])[0] == run[0] && (run + [a])[1..] == run[1..] + [a];
    }
  }

  /** One thread may count a step while there is room. */
  lemma WholeStep(b: Budget, s: State, run: seq<Action>) returns (longer: seq<Action>)
    requires b == Budget(None, b.maxSteps, None, None) && Possible(b, s, run)
    requires var t := After(b, s, run);
      t.totals.pending.None? && !Over(b.maxSteps, t.totals.steps) && t.threads != [] && t.threads[0].Outside?
    ensures Possible(b, s, longer)
    ensures var t, u := After(b, s, run), After(b, s, longer);
      u.threads == t.threads && u.totals == t.totals.(steps := t.totals.steps + 1)
  {
    hide After, Possible;
    OneMore(b, s, run, Look(0));
    OneMore(b, s, run + [Look(0)], Read(0, 0.0));
    longer := run + [Look(0)] + [Read(0, 0.0)];
    OneMore(b, s, longer, CountStep(0));
    longer := longer + [CountStep(0)];
  }

  /** A thread may pass the check while there is room. */
  lemma PassCheck(b: Budget, s: State, run: seq<Action>, i: nat) returns (longer: seq<Action>)
    requires b == Budget(None, b.maxSteps, None, None) && Possible(b, s, run)
    requires var t := After(b, s, run);
      t.totals.pending.None? && !Over(b.maxSteps, t.totals.steps) && i < |t.threads| && t.threads[i].Outside?
    ensures Possible(b, s, longer)
    ensures var t, u := After(b, s, run), After(b, s, longer);
      u.threads == t.threads[i := Passed] && u.totals == t.totals
  {
    hide After, Possible;
    OneMore(b, s, run, Look(i));
    OneMore(b, s, run + [Look(i)], Read(i, 0.0));
    longer := run + [Look(i)] + [Read(i, 0.0)];
  }

  /** The bound is met: the last k threads may all pass the check before any of them counts its step. */
  lemma BoundIsMet(limit: int, k: nat) returns (run: seq<Action>)
    ensures var b := Budget(None, Some(limit), None, None);
      Possible(b, Initial(k), run) && After(b, Initial(k), run).totals.steps == StepBound(limit, k)
  {
    hide After, Possible;
    var b, s := Budget(None, Some(limit), None, None), Initial(k);
    run := [];
    NoActions(b, s);
    if limit <= 0 || k == 0 {
      return;
    }
    var n := 0;
    while n < limit - 1
      invariant 0 <= n <= limit - 1 && Possible(b, s, run)
      invariant After(b, s, run).totals == Totals(n, 0, 0, None) && After(b, s, run).threads == s.threads
    {
      run := WholeStep(b, s, run);
      n := n + 1;
    }
    var i := 0;
    while i < k
      invariant 0 <= i <= k && Possible(b, s, run)
      invariant After(b, s, run).totals == Totals(limit - 1, 0, 0, None)
      invariant After(b, s, run).threads == seq(k, j => if j < i then Passed else Outside)
    {
      run := PassCheck(b, s, run, i);
      i := i + 1;
    }
    i := 0;
    while i < k
      invariant 0 <= i <= k && Possible(b, s, run)
      invariant After(b, s, run).totals == Totals(limit - 1 + i, 0, 0, None)
      invariant After(b, s, run).threads == seq(k, j => if j < i then Outside else Passed)
    {
      OneMore(b, s, run, CountStep(i));
      run := run + [CountStep(i)];
      i := i + 1;
    }
  }

  lemma NoActions(b: Budget, s: State)
    ensures Possible(b, s, []) && After(b, s, []) == s
  {
  }

  // ----- the token budget

  ghost predicate TokensSpent(b: Budget, t: Totals) {
    || (b.maxTokensIn.Some? && t.tokensIn >= b.maxTokensIn.value)
    || (b.maxTokensOut.Some? && t.tokensOut >= b.maxTokensOut.value)
  }

  ghost predicate OnlyAddsTokens(run: seq<Action>) {
    forall i :: 0 <= i < |run| && run[i].Other? && run[i].update.Tokens? ==>
      run[i].update.tokensIn >= 0 && run[i].update.tokensOut >= 0
  }

  /** Once a token total has reached its limit no later check of any thread passes. */
  lemma {:induction false} NoLaterPass(b: Budget, s: State, run: seq<Action>, i: nat)
    requires Possible(b, s, run) && TokensSpent(b, s.totals) && OnlyAddsTokens(run)
    requires i < |run| && run[i].Read?
    ensures Possible(b, s, run[..i + 1])
    ensures var t := After(b, s, run[..i + 1]);
      run[i].thread < |t.threads| && t.threads[run[i].thread].Outside? && TokensSpent(b, t.totals)
    decreases |run|
  {
    hide OnlyAddsTokens;
    var rest := run[..i + 1][1..];
    assert run[..i + 1][0] == run[0];
    SpentStays(b, s, run);
    if i == 0 {
      assert rest == [];
    } else {
      NoLaterPass(b, Next(b, s, run[0]), run[1..], i - 1);
      assert rest == run[1..][..i];
    }
  }

  lemma SpentStays(b: Budget, s: State, run: seq<Action>)
    requires run != [] && Enabled(s, run[0]) && TokensSpent(b, s.totals) && OnlyAddsTokens(run)
    ensures TokensSpent(b, Next(b, s, run[0]).totals) && OnlyAddsTokens(run[1..])
  {
  }

  // ----- the remote halt

  /** The reason a look at this point must raise: the last one signalled, unless a look has taken it. */
  function PendingOf(log: seq<Entry>): Option<string> {
    if log == [] then None
    else match log[|log| - 1] case Signalled(reason) => Some(reason) case Looked(_) => None
  }

  ghost predicate RemoteHonest(s: State) {
    && s.totals.pending == PendingOf(s.log)
    && forall i :: 0 <= i < |s.log| && s.log[i].Looked? ==> s.log[i].raised == PendingOf(s.log[..i])
  }

  lemma StepKeepsRemote(b: Budget, s: State, a: Action)
    requires Enabled(s, a) && RemoteHonest(s)
    ensures RemoteHonest(Next(b, s, a))
  {
    var t := Next(b, s, a);
    assert t.log != s.log ==> |t.log| == |s.log| + 1 && t.log[..|s.log|] == s.log;
    forall i | 0 <= i < |t.log| && t.log[i].Looked?
      ensures t.log[i].raised == PendingOf(t.log[..i])
    {
      if i < |s.log| {
        assert t.log[..i] == s.log[..i];
      }
    }
  }

  lemma {:induction false} RunKeepsRemote(b: Budget, s: State, run: seq<Action>)
    requires Possible(b, s, run) && RemoteHonest(s)
    ensures RemoteHonest(After(b, s, run))
    decreases |run|
  {
    hide RemoteHonest, Next;
    if run != [] {
      StepKeepsRemote(b, s, run[0]);
      RunKeepsRemote(b, Next(b, s, run[0]), run[1..]);
    }
  }

  /**
   * In every run, a signalled halt is raised by the first check that looks after it, with the last reason signalled
   * before that look, and by no look after that one until another signal arrives.
   */
  lemma RaisedExactlyOnce(b: Budget, k: nat, run: seq<Action>, i: nat, j: nat, later: nat)
    requires Possible(b, Initial(k), run)
    requires var log := After(b, Initial(k), run).log;
      && i < j < later < |log| && log[i].Signalled? && log[j].Looked? && log[later].Looked?
      && (forall m :: i < m < j ==> log[m].Signalled?)
      && (forall m :: j < m < later ==> log[m].Looked?)
    ensures var log := After(b, Initial(k), run).log;
      && log[j - 1].Signalled? && log[j].raised == Some(log[j - 1].reason)
      && log[later].raised == None
  {
    RunKeepsRemote(b, Initial(k), run);
    hide After, Possible;
    var log := After(b, Initial(k), run).log;
    assert log[..j][j - 1] == log[j - 1] && log[..later][later - 1] == log[later - 1];
  }

  /** A halt signalled after the last look is still pending when the run ends. */
  lemma NotLost(b: Budget, k: nat, run: seq<Action>)
    requires Possible(b, Initial(k), run)
    ensures After(b, Initial(k), run).totals.pending == PendingOf(After(b, Initial(k), run).log)
  {
    RunKeepsRemote(b, Initial(k), run);
  }
}
