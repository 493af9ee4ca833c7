/** Every command finishes: a measure on lock-protocol states that each thread step lowers. */
module Progress {
  import opened Decimal
  import opened Programs
  import opened LockProtocol

  /** The thread has announced itself as a writer and waits for the readers to leave. */
  ghost predicate Announced<C>(sem: Sem<C>, s: State<C>, t: nat)
    requires t in s.threads
  {
    && s.threads[t].phase.Locking?
    && var q := LockOrder(sem, s.threads[t].cmd);
       s.threads[t].phase.i < |q| && Mu(s, q[s.threads[t].phase.i]).writer == Some(t)
  }

  /** How many steps the thread can still take. */
  ghost function Budget<C>(sem: Sem<C>, s: State<C>, t: nat): nat
    requires t in s.threads
  {
    var c := s.threads[t].cmd;
    var n := |LockOrder(sem, c)|;
    match s.threads[t].phase
    case Locking(i) =>
      (if i < n then 2 * (n - i) - (if Announced(sem, s, t) then 1 else 0) else 0) + sem.limit(c) + n + 3
    case Running(l, _) => (if l.pc < sem.limit(c) then sem.limit(c) - l.pc else 0) + n + 2
    case Unlocking(i) => (if i <= n then i else n) + 1
    case Finished => 0
  }

  lemma {:induction false} StepSpendsBudget<C(!new)>(sem: Sem<C>, s: State<C>, s': State<C>, t: nat)
    requires WellFormed(sem) && LocksAgree(sem, s) && PhasesInRange(sem, s) && ThreadStep(sem, s, s', t)
    ensures s'.threads.Keys == s.threads.Keys && Budget(sem, s', t) < Budget(sem, s, t)
  {
    match s.threads[t].phase
    case Locking(i) => LockSpends(sem, s, s', t);
    case Running(l, _) =>
      var c := s.threads[t].cmd;
      assert sem.next(c, l) != Done ==> l.pc < sem.limit(c);
    case Unlocking(i) => UnlockSpends(sem, s, s', t);
  }

  lemma {:induction false} LockSpends<C(!new)>(sem: Sem<C>, s: State<C>, s': State<C>, t: nat)
    requires LocksAgree(sem, s) && t in s.threads && s.threads[t].phase.Locking? && LockStep(sem, s, s', t)
    ensures s'.threads.Keys == s.threads.Keys && Budget(sem, s', t) < Budget(sem, s, t)
  {
    var q, i := LockOrder(sem, s.threads[t].cmd), s.threads[t].phase.i;
    if i < |q| { assert AgreeAt(sem, s, q[i]); }
  }

  /** A release gives back what was taken, so it is no fatal error. */
  lemma {:induction false} UnlockSpends<C(!new)>(sem: Sem<C>, s: State<C>, s': State<C>, t: nat)
    requires LocksAgree(sem, s) && PhasesInRange(sem, s)
    requires t in s.threads && s.threads[t].phase.Unlocking? && UnlockStep(sem, s, s', t)
    ensures s'.threads.Keys == s.threads.Keys && Budget(sem, s', t) < Budget(sem, s, t)
  {
    var q, i := LockOrder(sem, s.threads[t].cmd), s.threads[t].phase.i;
    if i > 0 {
      assert AgreeAt(sem, s, q[i - 1]);
      UnlockedShardAgrees(sem, s, s', t);
    }
  }

  lemma {:induction false} StepSparesOthers<C(!new)>(sem: Sem<C>, s: State<C>, s': State<C>, t: nat, u: nat)
    requires LocksAgree(sem, s) && PhasesInRange(sem, s) && NobodyClears(sem, s)
    requires ThreadStep(sem, s, s', t) && u != t && u in s.threads
    ensures u in s'.threads && Budget(sem, s', u) == Budget(sem, s, u)
  {
    var p := s.threads[u].phase;
    var q := LockOrder(sem, s.threads[u].cmd);
    assert u in s'.threads && s'.threads[u] == s.threads[u];
    if p.Locking? && p.i < |q| {
      WriterUnchanged(sem, s, s', t, u, q[p.i]);
    }
  }

  /** A step of `t` does not make or unmake another thread the announced writer. */
  lemma {:induction false} WriterUnchanged<C(!new)>(sem: Sem<C>, s: State<C>, s': State<C>, t: nat, u: nat, sh: nat)
    requires LocksAgree(sem, s) && PhasesInRange(sem, s) && NobodyClears(sem, s) && ThreadStep(sem, s, s', t) && u != t
    ensures Mu(s', sh).writer == Some(u) <==> Mu(s, sh).writer == Some(u)
  {
    assert AgreeAt(sem, s, sh);
    if s.threads[t].phase.Unlocking? && s.threads[t].phase.i > 0 {
      UnlockSparesWriter(sem, s, s', t, u, sh);
    } else if s.threads[t].phase.Running? {
      assert Mu(s', sh) == Mu(s, sh);
    }
  }

  lemma {:induction false} UnlockSparesWriter<C(!new)>(sem: Sem<C>, s: State<C>, s': State<C>, t: nat, u: nat, sh: nat)
    requires LocksAgree(sem, s) && PhasesInRange(sem, s) && ThreadStep(sem, s, s', t) && u != t
    requires s.threads[t].phase.Unlocking? && s.threads[t].phase.i > 0
    ensures Mu(s', sh).writer == Some(u) <==> Mu(s, sh).writer == Some(u)
  {
    var q := LockOrder(sem, s.threads[t].cmd);
    assert AgreeAt(sem, s, sh) && AgreeAt(sem, s, q[s.threads[t].phase.i - 1]);
    UnlockedShardAgrees(sem, s, s', t);
  }

  // ----- summing up -----

  ghost function Sum(m: map<nat, nat>): nat {
    if m == map[] then 0 else
      var k :| k in m;
      m[k] + Sum(m - {k})
  }

  lemma {:induction false} SumRemove(m: map<nat, nat>, k: nat)
    requires k in m
    ensures Sum(m) == m[k] + Sum(m - {k})
    decreases |m|
  {
    var j :| j in m && Sum(m) == m[j] + Sum(m - {j});
    if j != k {
      SumRemove(m - {j}, k);
      SumRemove(m - {k}, j);
      assert m - {j} - {k} == m - {k} - {j};
    }
  }

  ghost function Budgets<C>(sem: Sem<C>, s: State<C>): map<nat, nat> {
    map t | t in s.threads :: Budget(sem, s, t)
  }

  /** All the steps that the present threads can still take together. */
  ghost function Total<C>(sem: Sem<C>, s: State<C>): nat {
    Sum(Budgets(sem, s))
  }

  lemma {:induction false} OthersSpared<C(!new)>(sem: Sem<C>, s: State<C>, s': State<C>, t: nat)
    requires LocksAgree(sem, s) && PhasesInRange(sem, s) && NobodyClears(sem, s) && ThreadStep(sem, s, s', t)
    requires s'.threads.Keys == s.threads.Keys
    ensures Budgets(sem, s) - {t} == Budgets(sem, s') - {t}
  {
    forall u | u in s.threads && u != t ensures Budget(sem, s', u) == Budget(sem, s, u) {
      StepSparesOthers(sem, s, s', t, u);
    }
    assert s.threads.Keys == Budgets(sem, s).Keys && s'.threads.Keys == Budgets(sem, s').Keys;
  }

  lemma {:induction false} StepLowersTotal<C(!new)>(sem: Sem<C>, s: State<C>, s': State<C>, t: nat)
    requires WellFormed(sem) && LocksAgree(sem, s) && PhasesInRange(sem, s) && NobodyClears(sem, s) && ThreadStep(sem, s, s', t)
    ensures Total(sem, s') < Total(sem, s)
  {
    StepSpendsBudget(sem, s, s', t);
    OthersSpared(sem, s, s', t);
    var m, m' := Budgets(sem, s), Budgets(sem, s');
    SumRemove(m, t);
    SumRemove(m', t);
  }

  ghost predicate SomeThreadSteps<C>(sem: Sem<C>, s: State<C>, s': State<C>) {
    exists t :: ThreadStep(sem, s, s', t)
  }

  /** Mutexes and threads agree, and no command replaces a table. */
  ghost predicate InOrder<C>(sem: Sem<C>, s: State<C>) {
    LocksAgree(sem, s) && PhasesInRange(sem, s) && NobodyClears(sem, s)
  }

  lemma {:induction false} StepKeepsOrder<C(!new)>(sem: Sem<C>, s: State<C>, s': State<C>)
    requires WellFormed(sem) && InOrder(sem, s) && SomeThreadSteps(sem, s, s')
    ensures InOrder(sem, s') && Total(sem, s') < Total(sem, s)
  {
    var t :| ThreadStep(sem, s, s', t);
    StepLowersTotal(sem, s, s', t);
    StepKeepsLocks(sem, s, s');
    NoNewThread(sem, s, s', t);
  }

  lemma {:induction false} NoNewThread<C(!new)>(sem: Sem<C>, s: State<C>, s': State<C>, t: nat)
    requires ThreadStep(sem, s, s', t)
    ensures forall u :: u in s'.threads ==> u in s.threads && s'.threads[u].cmd == s.threads[u].cmd
  {
  }

  /** Once no new command arrives, a run of thread steps is no longer than the budget it starts with. */
  lemma {:induction false} RunsEnd<C(!new)>(sem: Sem<C>, run: seq<State<C>>, n: nat)
    requires WellFormed(sem) && n < |run| && InOrder(sem, run[0])
    requires forall i :: 0 <= i < |run| - 1 ==> SomeThreadSteps(sem, run[i], run[i + 1])
    ensures n + Total(sem, run[n]) <= Total(sem, run[0]) && InOrder(sem, run[n])
  {
    if n > 0 {
      RunsEnd(sem, run, n - 1);
      StepKeepsOrder(sem, run[n - 1], run[n]);
    }
  }
}
