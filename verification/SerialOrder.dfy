/**
 Whole runs of the lock protocol: what every reachable state keeps, and what follows when the threads have finished.
 The order in which commands are logged is a serial order of the run.
 */
module SerialOrder {
  import opened Programs
  import opened LockProtocol

  /** The store that the log stands for. */
  ghost function Base<C>(sem: Sem<C>, init: Store, s: State<C>): Store {
    Serial(sem, init, s.log)
  }

  /** After `k` accesses alone on the store `base`, none of them Log, the command stands where the thread stands. */
  ghost predicate Tracks<C>(sem: Sem<C>, c: C, base: Store, k: nat, l: Local, store: Store) {
    && Solo(sem, c, base, k).0 == l
    && Agree(sem, Solo(sem, c, base, k).1, store, Shards(sem, c))
    && forall j: nat :: j < k ==> sem.next(c, Solo(sem, c, base, j).0) != Log
  }

  ghost predicate InProgress<C>(s: State<C>, t: nat) {
    t in s.threads && s.threads[t].phase.Running? && !s.threads[t].phase.logged
  }

  /** The threads that run and have not logged yet may have changed the shards they hold for writing, nothing else. */
  ghost predicate StoreAgrees<C>(sem: Sem<C>, init: Store, s: State<C>) {
    forall k {:trigger Look(s.store, k)} ::
      (forall t :: InProgress(s, t) ==> sem.home(k) !in WriteShards(sem, s.threads[t].cmd))
      ==> Look(s.store, k) == Look(Base(sem, init, s), k)
  }

  ghost predicate ThreadAgrees<C>(sem: Sem<C>, init: Store, s: State<C>, t: nat)
    requires t in s.threads
  {
    match s.threads[t].phase
    case Locking(_) => true
    case Running(l, logged) =>
      if logged then sem.next(s.threads[t].cmd, l) == Done
      else exists k: nat :: Tracks(sem, s.threads[t].cmd, Base(sem, init, s), k, l, s.store)
    case Unlocking(i) => i <= |LockOrder(sem, s.threads[t].cmd)|
    case Finished => true
  }

  /** Commands that keep to their footprint and log whatever they change. */
  ghost predicate Good<C>(sem: Sem<C>, c: C) {
    Respects(sem, c) && Quiet(sem, c)
  }

  ghost predicate Inv<C(!new)>(sem: Sem<C>, init: Store, s: State<C>) {
    && WellFormed(sem) && LocksAgree(sem, s) && StoreAgrees(sem, init, s)
    && (forall t :: t in s.threads ==> Good(sem, s.threads[t].cmd) && ThreadAgrees(sem, init, s, t))
  }

  // ----- steps that leave the store alone -----

  lemma {:induction false} SameStoreKeeps<C(!new)>(sem: Sem<C>, init: Store, s: State<C>, s': State<C>)
    requires Inv(sem, init, s) && s'.store == s.store && s'.log == s.log
    requires forall t :: InProgress(s, t) ==> t in s'.threads && s'.threads[t] == s.threads[t]
    ensures StoreAgrees(sem, init, s')
  {
    forall k {:trigger Look(s'.store, k)} |
      (forall t :: InProgress(s', t) ==> sem.home(k) !in WriteShards(sem, s'.threads[t].cmd))
      ensures Look(s'.store, k) == Look(Base(sem, init, s'), k)
    {
      forall t | InProgress(s, t) ensures sem.home(k) !in WriteShards(sem, s.threads[t].cmd) {
        assert InProgress(s', t);
      }
    }
  }

  lemma {:induction false} OtherThreadKeeps<C(!new)>(sem: Sem<C>, init: Store, s: State<C>, s': State<C>, u: nat)
    requires u in s.threads && u in s'.threads && s'.threads[u] == s.threads[u] && ThreadAgrees(sem, init, s, u)
    requires s'.store == s.store && s'.log == s.log
    ensures ThreadAgrees(sem, init, s', u)
  {
    if InProgress(s, u) {
      var k: nat :| Tracks(sem, s.threads[u].cmd, Base(sem, init, s), k, s.threads[u].phase.l, s.store);
      assert Tracks(sem, s.threads[u].cmd, Base(sem, init, s'), k, s.threads[u].phase.l, s'.store);
    }
  }

  /** A thread that has all its locks finds its shards as the log left them. */
  lemma {:induction false} StartTracks<C(!new)>(sem: Sem<C>, init: Store, s: State<C>, t: nat)
    requires Inv(sem, init, s) && t in s.threads && !InProgress(s, t)
    requires Held(sem, s.threads[t]) == Shards(sem, s.threads[t].cmd)
    ensures Tracks(sem, s.threads[t].cmd, Base(sem, init, s), 0, INIT, s.store)
  {
    var c := s.threads[t].cmd;
    forall k | sem.home(k) in Shards(sem, c) ensures Look(Base(sem, init, s), k) == Look(s.store, k) {
      forall u | InProgress(s, u) ensures sem.home(k) !in WriteShards(sem, s.threads[u].cmd) {
        if sem.home(k) in WriteShards(sem, s.threads[u].cmd) {
          assert HoldsForWriting(sem, s, u, sem.home(k));
          WriterIsAlone(sem, s, u, t, sem.home(k));
        }
      }
    }
  }

  // ----- accesses -----

  /** While two threads run, neither writes where the other has anything locked. */
  lemma {:induction false} RunningApart<C(!new)>(sem: Sem<C>, s: State<C>, t: nat, u: nat, sh: nat)
    requires LocksAgree(sem, s) && t != u && t in s.threads && u in s.threads
    requires s.threads[t].phase.Running? && s.threads[u].phase.Running?
    requires sh in Shards(sem, s.threads[u].cmd)
    ensures sh !in WriteShards(sem, s.threads[t].cmd)
  {
    if sh in WriteShards(sem, s.threads[t].cmd) {
      assert HoldsForWriting(sem, s, t, sh);
      WriterIsAlone(sem, s, t, u, sh);
    }
  }

  /** The access that a running thread makes, when it is neither Log nor the end. */
  ghost predicate Accesses<C>(sem: Sem<C>, s: State<C>, s': State<C>, t: nat) {
    && t in s.threads && s.threads[t].phase.Running? && RunStep(sem, s, s', t)
    && var a := sem.next(s.threads[t].cmd, s.threads[t].phase.l); a != Log && a != Done
  }

  lemma {:induction false} AccessKeepsOthers<C(!new)>(sem: Sem<C>, init: Store, s: State<C>, s': State<C>, t: nat, u: nat)
    requires Inv(sem, init, s) && Accesses(sem, s, s', t) && u != t && u in s.threads
    ensures ThreadAgrees(sem, init, s', u)
  {
    if InProgress(s, u) {
      var c, d, l := s.threads[t].cmd, s.threads[u].cmd, s.threads[u].phase.l;
      var a := sem.next(c, s.threads[t].phase.l);
      var k: nat :| Tracks(sem, d, Base(sem, init, s), k, l, s.store);
      assert Allowed(sem, c, a);
      forall x | sem.home(x) in Shards(sem, d) ensures Look(s'.store, x) == Look(s.store, x) {
        RunningApart(sem, s, t, u, sem.home(x));
        PerformElsewhere(sem, c, a, s.store, x);
      }
      assert Tracks(sem, d, Base(sem, init, s'), k, l, s'.store);
    }
  }

  lemma {:induction false} AccessKeepsSelf<C(!new)>(sem: Sem<C>, init: Store, s: State<C>, s': State<C>, t: nat)
    requires Inv(sem, init, s) && Accesses(sem, s, s', t)
    ensures ThreadAgrees(sem, init, s', t) && InProgress(s, t)
  {
    var c, l := s.threads[t].cmd, s.threads[t].phase.l;
    var a := sem.next(c, l);
    assert ThreadAgrees(sem, init, s, t);
    var base := Base(sem, init, s);
    var k: nat :| Tracks(sem, c, base, k, l, s.store);
    TracksStep(sem, c, base, k, l, s.store);
    assert Tracks(sem, c, Base(sem, init, s'), k + 1, s'.threads[t].phase.l, s'.store);
  }

  lemma {:induction false} TracksStep<C(!new)>(sem: Sem<C>, c: C, base: Store, k: nat, l: Local, store: Store)
    requires Respects(sem, c) && Tracks(sem, c, base, k, l, store) && sem.next(c, l) != Log && sem.next(c, l) != Done
    ensures var a := sem.next(c, l); Tracks(sem, c, base, k + 1, sem.after(c, l, SeenBy(a, store)), Perform(a, store))
  {
    var a := sem.next(c, l);
    var u := Solo(sem, c, base, k).1;
    assert Allowed(sem, c, a);
    assert SeenBy(a, u) == SeenBy(a, store);
    PerformFrame(sem, a, u, store, Shards(sem, c));
  }

  lemma {:induction false} AccessKeepsStore<C(!new)>(sem: Sem<C>, init: Store, s: State<C>, s': State<C>, t: nat)
    requires Inv(sem, init, s) && Accesses(sem, s, s', t) && InProgress(s, t)
    ensures StoreAgrees(sem, init, s')
  {
    var c := s.threads[t].cmd;
    var a := sem.next(c, s.threads[t].phase.l);
    assert Allowed(sem, c, a);
    forall k {:trigger Look(s'.store, k)} |
      (forall u :: InProgress(s', u) ==> sem.home(k) !in WriteShards(sem, s'.threads[u].cmd))
      ensures Look(s'.store, k) == Look(Base(sem, init, s'), k)
    {
      assert InProgress(s', t);
      forall u | InProgress(s, u) ensures sem.home(k) !in WriteShards(sem, s.threads[u].cmd) {
        assert InProgress(s', u);
      }
      PerformElsewhere(sem, c, a, s.store, k);
      assert Look(s.store, k) == Look(Base(sem, init, s), k);
    }
  }

  // ----- logging -----

  ghost predicate LogsNow<C>(sem: Sem<C>, s: State<C>, s': State<C>, t: nat) {
    && t in s.threads && s.threads[t].phase.Running? && RunStep(sem, s, s', t)
    && sem.next(s.threads[t].cmd, s.threads[t].phase.l) == Log
  }

  /** The log's store after the new entry is the store the thread has run into, alone. */
  lemma {:induction false} LogBase<C(!new)>(sem: Sem<C>, init: Store, s: State<C>, s': State<C>, t: nat) returns (k: nat)
    requires Inv(sem, init, s) && LogsNow(sem, s, s', t)
    ensures InProgress(s, t)
    ensures Tracks(sem, s.threads[t].cmd, Base(sem, init, s), k, s.threads[t].phase.l, s.store)
    ensures Base(sem, init, s') == Solo(sem, s.threads[t].cmd, Base(sem, init, s), k).1
  {
    var c, l := s.threads[t].cmd, s.threads[t].phase.l;
    assert ThreadAgrees(sem, init, s, t);
    var base := Base(sem, init, s);
    k :| Tracks(sem, c, base, k, l, s.store);
    LoggedAt(sem, c, base, k);
    BaseGrows(sem, init, s, s', t);
  }

  lemma {:induction false} BaseGrows<C(!new)>(sem: Sem<C>, init: Store, s: State<C>, s': State<C>, t: nat)
    requires LogsNow(sem, s, s', t)
    ensures Base(sem, init, s') == Exec(sem, s.threads[t].cmd, Base(sem, init, s))
  {
    assert s'.log == s.log + [s.threads[t].cmd];
    assert s'.log[..|s.log|] == s.log;
  }

  /** Log is the last access that matters. */
  lemma {:induction false} LoggedAt<C(!new)>(sem: Sem<C>, c: C, base: Store, k: nat)
    requires WellFormed(sem) && sem.next(c, Solo(sem, c, base, k).0) == Log
    ensures Exec(sem, c, base) == Solo(sem, c, base, k).1
  {
    ExecIs(sem, c, base, k + 1);
  }

  lemma {:induction false} LogKeepsOthers<C(!new)>(sem: Sem<C>, init: Store, s: State<C>, s': State<C>, t: nat, u: nat)
    requires Inv(sem, init, s) && LogsNow(sem, s, s', t) && u != t && u in s.threads
    ensures ThreadAgrees(sem, init, s', u)
  {
    if InProgress(s, u) {
      var c, d, l := s.threads[t].cmd, s.threads[u].cmd, s.threads[u].phase.l;
      var n := LogBase(sem, init, s, s', t);
      var base, base' := Base(sem, init, s), Base(sem, init, s');
      var k: nat :| Tracks(sem, d, base, k, l, s.store);
      forall x | sem.home(x) in Shards(sem, d) ensures Look(base, x) == Look(base', x) {
        RunningApart(sem, s, t, u, sem.home(x));
        SoloElsewhere(sem, c, base, n, x);
      }
      TracksFrame(sem, d, base, base', k, l, s.store);
    }
  }

  lemma {:induction false} TracksFrame<C(!new)>(sem: Sem<C>, c: C, base: Store, base': Store, k: nat, l: Local, store: Store)
    requires Respects(sem, c) && Tracks(sem, c, base, k, l, store) && Agree(sem, base, base', Shards(sem, c))
    ensures Tracks(sem, c, base', k, l, store)
  {
    SoloFrame(sem, c, base, base', k);
    forall j: nat | j < k ensures sem.next(c, Solo(sem, c, base', j).0) != Log {
      SoloFrame(sem, c, base, base', j);
    }
  }

  lemma {:induction false} LogKeepsStore<C(!new)>(sem: Sem<C>, init: Store, s: State<C>, s': State<C>, t: nat)
    requires Inv(sem, init, s) && LogsNow(sem, s, s', t)
    ensures StoreAgrees(sem, init, s')
  {
    var c := s.threads[t].cmd;
    var n := LogBase(sem, init, s, s', t);
    var base := Base(sem, init, s);
    forall k {:trigger Look(s'.store, k)} |
      (forall u :: InProgress(s', u) ==> sem.home(k) !in WriteShards(sem, s'.threads[u].cmd))
      ensures Look(s'.store, k) == Look(Base(sem, init, s'), k)
    {
      if sem.home(k) in WriteShards(sem, c) {
        assert sem.home(k) in Shards(sem, c);
      } else {
        SoloElsewhere(sem, c, base, n, k);
        forall u | InProgress(s, u) ensures sem.home(k) !in WriteShards(sem, s.threads[u].cmd) {
          assert u != t ==> InProgress(s', u);
        }
        assert Look(s.store, k) == Look(base, k);
      }
    }
  }

  // ----- the end of a command -----

  ghost predicate Ends<C>(sem: Sem<C>, s: State<C>, s': State<C>, t: nat) {
    && t in s.threads && s.threads[t].phase.Running? && RunStep(sem, s, s', t)
    && sem.next(s.threads[t].cmd, s.threads[t].phase.l) == Done
  }

  /** A command that ends without having logged leaves its shards as the log has them. */
  lemma {:induction false} QuietEnd<C(!new)>(sem: Sem<C>, c: C, base: Store, k: nat, l: Local, store: Store)
    requires WellFormed(sem) && Quiet(sem, c) && Tracks(sem, c, base, k, l, store) && sem.next(c, l) == Done
    ensures Agree(sem, base, store, Shards(sem, c))
  {
    forall j: nat ensures sem.next(c, Solo(sem, c, base, j).0) != Log {
      if j >= k { SoloStays(sem, c, base, k, j); }
    }
    assert !Logs(sem, c, base);
    ExecIs(sem, c, base, k);
  }

  lemma {:induction false} EndKeepsStore<C(!new)>(sem: Sem<C>, init: Store, s: State<C>, s': State<C>, t: nat)
    requires Inv(sem, init, s) && Ends(sem, s, s', t)
    ensures StoreAgrees(sem, init, s')
  {
    var c, base := s.threads[t].cmd, Base(sem, init, s);
    if InProgress(s, t) {
      assert ThreadAgrees(sem, init, s, t);
      var n: nat :| Tracks(sem, c, base, n, s.threads[t].phase.l, s.store);
      QuietEnd(sem, c, base, n, s.threads[t].phase.l, s.store);
    }
    forall k {:trigger Look(s'.store, k)} |
      (forall u :: InProgress(s', u) ==> sem.home(k) !in WriteShards(sem, s'.threads[u].cmd))
      ensures Look(s'.store, k) == Look(Base(sem, init, s'), k)
    {
      if !(InProgress(s, t) && sem.home(k) in WriteShards(sem, c)) {
        forall u | InProgress(s, u) ensures sem.home(k) !in WriteShards(sem, s.threads[u].cmd) {
          assert u != t ==> InProgress(s', u);
        }
        assert Look(s.store, k) == Look(base, k);
      }
    }
  }

  // ----- every step, every run -----

  lemma {:induction false} ThreadStepKeeps<C(!new)>(sem: Sem<C>, init: Store, s: State<C>, s': State<C>, t: nat)
    requires Inv(sem, init, s) && ThreadStep(sem, s, s', t)
    ensures StoreAgrees(sem, init, s')
    ensures forall u :: u in s'.threads ==> u in s.threads && s'.threads[u].cmd == s.threads[u].cmd && ThreadAgrees(sem, init, s', u)
  {
    ThreadsStay(sem, s, s', t);
    if Accesses(sem, s, s', t) {
      AccessKeeps(sem, init, s, s', t);
    } else if LogsNow(sem, s, s', t) {
      LogKeeps(sem, init, s, s', t);
    } else if Ends(sem, s, s', t) {
      EndKeeps(sem, init, s, s', t);
    } else {
      LockingKeeps(sem, init, s, s', t);
    }
  }

  lemma {:induction false} ThreadsStay<C(!new)>(sem: Sem<C>, s: State<C>, s': State<C>, t: nat)
    requires ThreadStep(sem, s, s', t)
    ensures forall u :: u in s'.threads ==> u in s.threads && s'.threads[u].cmd == s.threads[u].cmd
  {
  }

  lemma {:induction false} AccessKeeps<C(!new)>(sem: Sem<C>, init: Store, s: State<C>, s': State<C>, t: nat)
    requires Inv(sem, init, s) && Accesses(sem, s, s', t)
    ensures StoreAgrees(sem, init, s') && forall u :: u in s'.threads ==> ThreadAgrees(sem, init, s', u)
  {
    assert ThreadAgrees(sem, init, s, t);
    AccessKeepsSelf(sem, init, s, s', t);
    AccessKeepsStore(sem, init, s, s', t);
    forall u | u in s'.threads ensures ThreadAgrees(sem, init, s', u) {
      if u != t { AccessKeepsOthers(sem, init, s, s', t, u); }
    }
  }

  lemma {:induction false} LogKeeps<C(!new)>(sem: Sem<C>, init: Store, s: State<C>, s': State<C>, t: nat)
    requires Inv(sem, init, s) && LogsNow(sem, s, s', t)
    ensures StoreAgrees(sem, init, s') && forall u :: u in s'.threads ==> ThreadAgrees(sem, init, s', u)
  {
    assert ThreadAgrees(sem, init, s, t);
    LogKeepsStore(sem, init, s, s', t);
    forall u | u in s'.threads ensures ThreadAgrees(sem, init, s', u) {
      if u != t { LogKeepsOthers(sem, init, s, s', t, u); }
    }
  }

  lemma {:induction false} EndKeeps<C(!new)>(sem: Sem<C>, init: Store, s: State<C>, s': State<C>, t: nat)
    requires Inv(sem, init, s) && Ends(sem, s, s', t)
    ensures StoreAgrees(sem, init, s') && forall u :: u in s'.threads ==> ThreadAgrees(sem, init, s', u)
  {
    EndKeepsStore(sem, init, s, s', t);
    forall u | u in s'.threads ensures ThreadAgrees(sem, init, s', u) {
      if u != t { OtherThreadKeeps(sem, init, s, s', u); }
    }
  }

  lemma {:induction false} EnteredAgrees<C(!new)>(sem: Sem<C>, init: Store, s: State<C>, s': State<C>, t: nat)
    requires Inv(sem, init, s) && ThreadStep(sem, s, s', t) && !s.threads[t].phase.Running? && s'.threads[t].phase.Running?
    ensures ThreadAgrees(sem, init, s', t)
  {
    var c := s.threads[t].cmd;
    PrefixWhole(LockOrder(sem, c), Shards(sem, c), s.threads[t].phase.i);
    StartTracks(sem, init, s, t);
    assert Tracks(sem, c, Base(sem, init, s'), 0, INIT, s'.store);
  }

  lemma {:induction false} LockingKeeps<C(!new)>(sem: Sem<C>, init: Store, s: State<C>, s': State<C>, t: nat)
    requires Inv(sem, init, s) && ThreadStep(sem, s, s', t) && !s.threads[t].phase.Running?
    ensures StoreAgrees(sem, init, s')
    ensures forall u :: u in s'.threads ==> u in s.threads && ThreadAgrees(sem, init, s', u)
  {
    var c := s.threads[t].cmd;
    SameStoreKeeps(sem, init, s, s');
    forall u | u in s'.threads ensures ThreadAgrees(sem, init, s', u) {
      if u != t {
        OtherThreadKeeps(sem, init, s, s', u);
      } else if s'.threads[t].phase.Running? {
        EnteredAgrees(sem, init, s, s', t);
      } else {
        assert ThreadAgrees(sem, init, s, t);
      }
    }
  }

  lemma {:induction false} SpawnKeeps<C(!new)>(sem: Sem<C>, init: Store, s: State<C>, s': State<C>, t: nat, c: C)
    requires Inv(sem, init, s) && Spawn(s, s', t, c)
    ensures StoreAgrees(sem, init, s')
    ensures forall u :: u in s'.threads ==> ThreadAgrees(sem, init, s', u)
  {
    SameStoreKeeps(sem, init, s, s');
    forall u | u in s'.threads ensures ThreadAgrees(sem, init, s', u) {
      if u != t { OtherThreadKeeps(sem, init, s, s', u); }
    }
  }

  lemma {:induction false} GoodNeverClears<C(!new)>(sem: Sem<C>, s: State<C>)
    requires forall t :: t in s.threads ==> Good(sem, s.threads[t].cmd)
    ensures NobodyClears(sem, s)
  {
    forall t | t in s.threads ensures NeverClears(sem, s.threads[t].cmd) { RespectsNeverClears(sem, s.threads[t].cmd); }
  }

  /** What every reachable state keeps, one step at a time. */
  lemma {:induction false} StepKeepsInv<C(!new)>(sem: Sem<C>, init: Store, s: State<C>, s': State<C>)
    requires Inv(sem, init, s) && Step(sem, s, s')
    requires forall t :: t in s'.threads ==> Good(sem, s'.threads[t].cmd)
    ensures Inv(sem, init, s')
  {
    assert PhasesInRange(sem, s) by {
      forall t | t in s.threads && s.threads[t].phase.Unlocking?
        ensures s.threads[t].phase.i <= |LockOrder(sem, s.threads[t].cmd)|
      {
        assert ThreadAgrees(sem, init, s, t);
      }
    }
    GoodNeverClears(sem, s);
    StepKeepsLocks(sem, s, s');
    if t, c :| Spawn(s, s', t, c) {
      SpawnKeeps(sem, init, s, s', t, c);
    } else {
      var t :| ThreadStep(sem, s, s', t);
      ThreadStepKeeps(sem, init, s, s', t);
    }
  }

  ghost predicate AllGood<C(!new)>(sem: Sem<C>, run: seq<State<C>>) {
    WellFormed(sem) && forall i, t :: 0 <= i < |run| && t in run[i].threads ==> Good(sem, run[i].threads[t].cmd)
  }

  lemma {:induction false} RunKeepsInv<C(!new)>(sem: Sem<C>, init: Store, run: seq<State<C>>, i: nat)
    requires IsRun(sem, init, run) && AllGood(sem, run) && i < |run|
    ensures Inv(sem, init, run[i])
  {
    if i == 0 {
      forall sh: nat ensures AgreeAt(sem, run[0], sh) { }
    } else {
      RunKeepsInv(sem, init, run, i - 1);
      StepKeepsInv(sem, init, run[i - 1], run[i]);
    }
  }

  /**
   The log is a serial order of the run: whenever no thread is between its locks, the store is what the logged
   commands leave behind when run one at a time in the order in which they were logged.
   */
  lemma {:induction false} LogIsSerialOrder<C(!new)>(sem: Sem<C>, init: Store, run: seq<State<C>>)
    requires IsRun(sem, init, run) && AllGood(sem, run)
    requires var last := run[|run| - 1]; forall t :: t in last.threads ==> !last.threads[t].phase.Running?
    ensures var last := run[|run| - 1]; last.store == Serial(sem, init, last.log)
  {
    var last := run[|run| - 1];
    RunKeepsInv(sem, init, run, |run| - 1);
    var base := Base(sem, init, last);
    forall k ensures Look(last.store, k) == Look(base, k) {
      assert forall t :: !InProgress(last, t);
    }
    forall k ensures k in last.store <==> k in base { assert Look(last.store, k) == Look(base, k); }
    forall k | k in base ensures last.store[k] == base[k] { assert Look(last.store, k) == Look(base, k); }
  }
}
