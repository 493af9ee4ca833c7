/**
 Many threads running commands on one sharded store, step by step: take the shard locks in ascending order, make
 the accesses of the command one by one (logging among them), release the locks in descending order.

 A shard's RW mutex is modelled as Go's: a writer first announces itself, which keeps new readers out, and owns the
 shard once the readers it found have left. Giving back a lock that is not taken ends the whole process, and clearing a
 database replaces its table together with all mutexes in it.
 */
module LockProtocol {
  import opened Decimal
  import opened Programs

  // ----- the order of the locks -----

  ghost predicate IsAscending(q: seq<nat>) {
    forall i, j :: 0 <= i < j < |q| ==> q[i] < q[j]
  }

  ghost predicate IsOrderOf(q: seq<nat>, s: set<nat>) {
    IsAscending(q) && forall x :: x in q <==> x in s
  }

  lemma {:induction false} OrderExists(s: set<nat>) returns (q: seq<nat>)
    ensures IsOrderOf(q, s)
    decreases |s|
  {
    if s == {} {
      q := [];
    } else {
      var m := LargestOf(s);
      var r := OrderExists(s - {m});
      assert forall i :: 0 <= i < |r| ==> r[i] in s - {m};
      q := r + [m];
    }
  }

  lemma {:induction false} LargestOf(s: set<nat>) returns (m: nat)
    requires s != {}
    ensures m in s && forall x :: x in s ==> x <= m
    decreases |s|
  {
    var a :| a in s;
    m := a;
    if s - {a} != {} {
      var n := LargestOf(s - {a});
      if n > a { m := n; }
    }
    assert forall x :: x in s ==> x == a || x in s - {a};
  }

  lemma {:induction false} SameEmptiness(q: seq<nat>, r: seq<nat>, s: set<nat>)
    requires IsOrderOf(q, s) && IsOrderOf(r, s)
    ensures q == [] <==> r == []
  {
    if q != [] { assert q[0] in s && q[0] in r; }
    if r != [] { assert r[0] in s && r[0] in q; }
  }

  lemma {:induction false} OrderUnique(q: seq<nat>, r: seq<nat>, s: set<nat>)
    requires IsOrderOf(q, s) && IsOrderOf(r, s)
    ensures q == r
    decreases |q|
  {
    SameEmptiness(q, r, s);
    if q != [] {
      var a, b := q[|q| - 1], r[|r| - 1];
      LastIsLargest(q, s);
      LastIsLargest(r, s);
      assert a == b;
      WithoutLast(q, s);
      WithoutLast(r, s);
      OrderUnique(q[..|q| - 1], r[..|r| - 1], s - {a});
      assert q == q[..|q| - 1] + [a] && r == r[..|r| - 1] + [b];
    }
  }

  lemma {:induction false} LastIsLargest(q: seq<nat>, s: set<nat>)
    requires IsOrderOf(q, s) && q != []
    ensures q[|q| - 1] in s && forall x :: x in s ==> x <= q[|q| - 1]
  {
    assert q[|q| - 1] in q;
    forall x | x in s ensures x <= q[|q| - 1] {
      assert x in q;
      var i :| 0 <= i < |q| && q[i] == x;
    }
  }

  lemma {:induction false} WithoutLast(q: seq<nat>, s: set<nat>)
    requires IsOrderOf(q, s) && q != []
    ensures IsOrderOf(q[..|q| - 1], s - {q[|q| - 1]})
  {
    var n := |q| - 1;
    forall x ensures x in q[..n] <==> x in s - {q[n]} {
      assert q == q[..n] + [q[n]];
      if x in q[..n] {
        var i :| 0 <= i < n && q[..n][i] == x;
        assert q[i] < q[n];
      }
    }
  }

  ghost function OrderOf(s: set<nat>): (q: seq<nat>)
    ensures IsOrderOf(q, s)
  {
    assert exists q :: IsOrderOf(q, s) by { var q := OrderExists(s); }
    var q :| IsOrderOf(q, s);
    q
  }

  // ----- states -----

  datatype Phase = Locking(i: nat) | Running(l: Local, logged: bool) | Unlocking(i: nat) | Finished
  datatype Thread<C> = Thread(cmd: C, phase: Phase)

  /** `writer` has announced itself; `owned` says that it has the shard to itself. */
  datatype Mutex = Mutex(writer: Option<nat>, owned: bool, readers: set<nat>)

  /** `crashed` means that the runtime has ended the process. */
  datatype State<C> = State(threads: map<nat, Thread<C>>, locks: map<nat, Mutex>, store: Store, log: seq<C>, crashed: bool)

  const FREE := Mutex(None, false, {})

  function Mu<C>(s: State<C>, sh: nat): Mutex {
    if sh in s.locks then s.locks[sh] else FREE
  }

  ghost function LockOrder<C>(sem: Sem<C>, c: C): seq<nat> {
    OrderOf(Shards(sem, c))
  }

  // ----- steps -----

  ghost function WithPhase<C>(s: State<C>, t: nat, p: Phase): State<C>
    requires t in s.threads
  {
    s.(threads := s.threads[t := s.threads[t].(phase := p)])
  }

  ghost function WithLock<C>(s: State<C>, sh: nat, m: Mutex): State<C> {
    s.(locks := s.locks[sh := m])
  }

  /** RWLocks: the next shard in ascending order; when all are held, the command starts. */
  ghost predicate LockStep<C>(sem: Sem<C>, s: State<C>, s': State<C>, t: nat)
    requires t in s.threads && s.threads[t].phase.Locking?
  {
    var c, i := s.threads[t].cmd, s.threads[t].phase.i;
    var q := LockOrder(sem, c);
    if i >= |q| then s' == WithPhase(s, t, Running(INIT, false))
    else
      var sh := q[i];
      var m := Mu(s, sh);
      if sh in WriteShards(sem, c) then
        || (m.writer == None && s' == WithLock(s, sh, m.(writer := Some(t), owned := false)))
        || (m.writer == Some(t) && m.readers == {} &&
            s' == WithPhase(WithLock(s, sh, m.(owned := true)), t, Locking(i + 1)))
      else
        m.writer == None &&
        s' == WithPhase(WithLock(s, sh, m.(readers := m.readers + {t})), t, Locking(i + 1))
  }

  /** Clearing a database gives its table new mutexes, whoever holds the old ones. */
  ghost function LocksAfter<C>(sem: Sem<C>, a: Action, locks: map<nat, Mutex>): map<nat, Mutex> {
    if a.Clear? then map sh | sh in locks && sem.table(sh) != a.db :: locks[sh] else locks
  }

  /** One access of the command; addAof appends to the log in the same order. */
  ghost predicate RunStep<C>(sem: Sem<C>, s: State<C>, s': State<C>, t: nat)
    requires t in s.threads && s.threads[t].phase.Running?
  {
    var c, l := s.threads[t].cmd, s.threads[t].phase.l;
    var a := sem.next(c, l);
    if a == Done then s' == WithPhase(s, t, Unlocking(|LockOrder(sem, c)|))
    else
      s' == WithPhase(s, t, Running(sem.after(c, l, SeenBy(a, s.store)), s.threads[t].phase.logged || a == Log))
            .(store := Perform(a, s.store), log := if a == Log then s.log + [c] else s.log,
              locks := LocksAfter(sem, a, s.locks))
  }

  /**
   RWUnLocks: the next shard in descending order. The runtime looks only at the state of the mutex: a lock that
   nobody holds in this mode is a fatal error, one that somebody else holds is taken from them.
   */
  ghost predicate UnlockStep<C>(sem: Sem<C>, s: State<C>, s': State<C>, t: nat)
    requires t in s.threads && s.threads[t].phase.Unlocking?
  {
    var c, i := s.threads[t].cmd, s.threads[t].phase.i;
    var q := LockOrder(sem, c);
    if i == 0 || i > |q| then s' == WithPhase(s, t, Finished)
    else
      var sh := q[i - 1];
      var m := Mu(s, sh);
      if IsTaken(m, sh in WriteShards(sem, c)) then
        exists m' :: Releases(m, m', t, sh in WriteShards(sem, c)) && s' == WithPhase(WithLock(s, sh, m'), t, Unlocking(i - 1))
      else s' == s.(crashed := true)
  }

  predicate IsTaken(m: Mutex, write: bool) {
    if write then m.writer.Some? else m.readers != {}
  }

  ghost predicate Releases(m: Mutex, m': Mutex, t: nat, write: bool) {
    if write then m' == m.(writer := None, owned := false)
    else exists u :: u in m.readers && (t in m.readers ==> u == t) && m' == m.(readers := m.readers - {u})
  }

  lemma {:induction false} ReleaseExists(m: Mutex, t: nat, write: bool) returns (m': Mutex)
    requires IsTaken(m, write)
    ensures Releases(m, m', t, write)
  {
    if write {
      m' := m.(writer := None, owned := false);
    } else {
      var u :| u in m.readers && (t in m.readers ==> u == t);
      m' := m.(readers := m.readers - {u});
    }
  }

  ghost predicate ThreadStep<C>(sem: Sem<C>, s: State<C>, s': State<C>, t: nat) {
    !s.crashed && t in s.threads &&
    match s.threads[t].phase
    case Locking(_) => LockStep(sem, s, s', t)
    case Running(_, _) => RunStep(sem, s, s', t)
    case Unlocking(_) => UnlockStep(sem, s, s', t)
    case Finished => false
  }

  /**
   Who waits for its next shard: a reader as long as a writer has announced itself, whether it owns the shard or waits
   itself; a writer as long as another one has, and, when it has announced itself, as long as there are readers.
   */
  lemma {:induction false} WaitsExactly<C(!new)>(sem: Sem<C>, s: State<C>, t: nat, i: nat, sh: nat)
    requires !s.crashed && t in s.threads && s.threads[t].phase == Locking(i)
    requires i < |LockOrder(sem, s.threads[t].cmd)| && sh == LockOrder(sem, s.threads[t].cmd)[i]
    ensures var m, write := Mu(s, sh), sh in WriteShards(sem, s.threads[t].cmd);
            (forall s' :: !ThreadStep(sem, s, s', t)) <==>
              if !write then m.writer.Some? else m.writer.Some? && (m.writer != Some(t) || m.readers != {})
  {
    var m, c := Mu(s, sh), s.threads[t].cmd;
    if sh !in WriteShards(sem, c) {
      if m.writer.None? {
        assert ThreadStep(sem, s, WithPhase(WithLock(s, sh, m.(readers := m.readers + {t})), t, Locking(i + 1)), t);
      }
    } else if m.writer.None? {
      assert ThreadStep(sem, s, WithLock(s, sh, m.(writer := Some(t), owned := false)), t);
    } else if m.writer == Some(t) && m.readers == {} {
      assert ThreadStep(sem, s, WithPhase(WithLock(s, sh, m.(owned := true)), t, Locking(i + 1)), t);
    }
  }

  /** A new command arrives. */
  ghost predicate Spawn<C>(s: State<C>, s': State<C>, t: nat, c: C) {
    !s.crashed && t !in s.threads && s' == s.(threads := s.threads[t := Thread(c, Locking(0))])
  }

  ghost predicate Step<C(!new)>(sem: Sem<C>, s: State<C>, s': State<C>) {
    (exists t :: ThreadStep(sem, s, s', t)) || (exists t, c :: Spawn(s, s', t, c))
  }

  // ----- who holds what -----

  /** The first `i` shards in lock order. */
  ghost function Prefix(q: seq<nat>, i: nat): set<nat> {
    set j | 0 <= j < i && j < |q| :: q[j]
  }

  ghost function Held<C>(sem: Sem<C>, th: Thread<C>): set<nat> {
    match th.phase
    case Locking(i) => Prefix(LockOrder(sem, th.cmd), i)
    case Running(_, _) => Shards(sem, th.cmd)
    case Unlocking(i) => Prefix(LockOrder(sem, th.cmd), i)
    case Finished => {}
  }

  ghost predicate HoldsForWriting<C>(sem: Sem<C>, s: State<C>, t: nat, sh: nat) {
    t in s.threads && sh in Held(sem, s.threads[t]) && sh in WriteShards(sem, s.threads[t].cmd)
  }

  ghost predicate HoldsForReading<C>(sem: Sem<C>, s: State<C>, t: nat, sh: nat) {
    t in s.threads && sh in Held(sem, s.threads[t]) && sh !in WriteShards(sem, s.threads[t].cmd)
  }

  /** The thread waits for shard `sh`. */
  ghost predicate Wants<C>(sem: Sem<C>, s: State<C>, t: nat, sh: nat) {
    && t in s.threads && s.threads[t].phase.Locking?
    && var q := LockOrder(sem, s.threads[t].cmd); s.threads[t].phase.i < |q| && q[s.threads[t].phase.i] == sh
  }

  /** The mutex of a shard says exactly who holds it in which mode, and a writer is alone. */
  ghost predicate AgreeAt<C>(sem: Sem<C>, s: State<C>, sh: nat) {
    var m := Mu(s, sh);
    && (forall t: nat :: t in m.readers <==> HoldsForReading(sem, s, t, sh))
    && (forall t: nat :: m.writer == Some(t) && m.owned <==> HoldsForWriting(sem, s, t, sh))
    && (m.writer.Some? && !m.owned ==>
          Wants(sem, s, m.writer.value, sh) && sh in WriteShards(sem, s.threads[m.writer.value].cmd))
    && (m.owned ==> m.writer.Some? && m.readers == {})
  }

  /** The process runs, and every mutex agrees with the threads. */
  ghost predicate LocksAgree<C>(sem: Sem<C>, s: State<C>) {
    !s.crashed && forall sh: nat :: AgreeAt(sem, s, sh)
  }

  /** A shard held for writing is held by nobody else, in any mode. */
  lemma {:induction false} WriterIsAlone<C>(sem: Sem<C>, s: State<C>, t: nat, u: nat, sh: nat)
    requires LocksAgree(sem, s) && HoldsForWriting(sem, s, t, sh) && t != u && u in s.threads
    ensures sh !in Held(sem, s.threads[u])
  {
    assert AgreeAt(sem, s, sh);
    assert !HoldsForWriting(sem, s, u, sh) && !HoldsForReading(sem, s, u, sh);
  }

  lemma {:induction false} PrefixGrows(q: seq<nat>, i: nat)
    requires IsAscending(q) && i < |q|
    ensures Prefix(q, i + 1) == Prefix(q, i) + {q[i]} && q[i] !in Prefix(q, i)
  {
  }

  lemma {:induction false} PrefixWhole(q: seq<nat>, s: set<nat>, i: nat)
    requires IsOrderOf(q, s) && i >= |q|
    ensures Prefix(q, i) == s && Prefix(q, 0) == {}
  {
    forall x | x in s ensures x in Prefix(q, i) {
      var j :| 0 <= j < |q| && q[j] == x;
    }
    forall x | x in Prefix(q, i) ensures x in s {
      var j :| 0 <= j < i && j < |q| && q[j] == x;
      assert q[j] in q;
    }
  }

  // ----- the locks stay in agreement -----

  /** Only thread `t` and at most the mutex of `sh` change. */
  ghost predicate ChangesOnly<C>(s: State<C>, s': State<C>, t: nat, sh: nat) {
    && t in s.threads && t in s'.threads && s'.threads[t].cmd == s.threads[t].cmd
    && (forall u :: u != t ==> (u in s'.threads <==> u in s.threads))
    && (forall u :: u != t && u in s.threads ==> s'.threads[u] == s.threads[u])
    && (forall x: nat :: x != sh ==> Mu(s', x) == Mu(s, x))
  }

  /** A shard that `t` neither gains nor loses keeps its agreement. */
  lemma {:induction false} OtherShardAgrees<C>(sem: Sem<C>, s: State<C>, s': State<C>, t: nat, sh: nat, x: nat)
    requires AgreeAt(sem, s, x) && ChangesOnly(s, s', t, sh) && x != sh
    requires x in Held(sem, s'.threads[t]) <==> x in Held(sem, s.threads[t])
    requires Wants(sem, s, t, x) ==> Wants(sem, s', t, x)
    ensures AgreeAt(sem, s', x)
  {
    forall u: nat
      ensures HoldsForReading(sem, s', u, x) <==> HoldsForReading(sem, s, u, x)
      ensures HoldsForWriting(sem, s', u, x) <==> HoldsForWriting(sem, s, u, x)
    {
    }
    var m := Mu(s, x);
    if m.writer.Some? && m.writer.value != t { assert Wants(sem, s', m.writer.value, x) <==> Wants(sem, s, m.writer.value, x); }
  }

  lemma {:induction false} LockStepAgrees<C>(sem: Sem<C>, s: State<C>, s': State<C>, t: nat)
    requires LocksAgree(sem, s) && t in s.threads && s.threads[t].phase.Locking? && LockStep(sem, s, s', t)
    ensures LocksAgree(sem, s')
  {
    var c, i := s.threads[t].cmd, s.threads[t].phase.i;
    var q := LockOrder(sem, c);
    if i >= |q| {
      PrefixWhole(q, Shards(sem, c), i);
      forall x: nat ensures AgreeAt(sem, s', x) {
        assert AgreeAt(sem, s, x);
        OtherShardAgrees(sem, s, s', t, x + 1, x);
      }
    } else {
      var sh := q[i];
      PrefixGrows(q, i);
      forall x: nat ensures AgreeAt(sem, s', x) {
        assert AgreeAt(sem, s, x);
        if x != sh {
          OtherShardAgrees(sem, s, s', t, sh, x);
        } else {
          LockedShardAgrees(sem, s, s', t);
        }
      }
    }
  }

  lemma {:induction false} LockedShardAgrees<C>(sem: Sem<C>, s: State<C>, s': State<C>, t: nat)
    requires t in s.threads && s.threads[t].phase.Locking? && LockStep(sem, s, s', t)
    requires s.threads[t].phase.i < |LockOrder(sem, s.threads[t].cmd)|
    requires AgreeAt(sem, s, LockOrder(sem, s.threads[t].cmd)[s.threads[t].phase.i])
    ensures AgreeAt(sem, s', LockOrder(sem, s.threads[t].cmd)[s.threads[t].phase.i])
  {
    var c, i := s.threads[t].cmd, s.threads[t].phase.i;
    var q := LockOrder(sem, c);
    var sh := q[i];
    PrefixGrows(q, i);
    assert !HoldsForReading(sem, s, t, sh) && !HoldsForWriting(sem, s, t, sh);
    forall u: nat | u != t
      ensures HoldsForReading(sem, s', u, sh) <==> HoldsForReading(sem, s, u, sh)
      ensures HoldsForWriting(sem, s', u, sh) <==> HoldsForWriting(sem, s, u, sh)
    {
    }
    if s'.threads[t].phase == Locking(i) {
      assert Wants(sem, s', t, sh);
      assert !HoldsForReading(sem, s', t, sh) && !HoldsForWriting(sem, s', t, sh);
    }
  }

  lemma {:induction false} UnlockStepAgrees<C>(sem: Sem<C>, s: State<C>, s': State<C>, t: nat)
    requires LocksAgree(sem, s) && t in s.threads && s.threads[t].phase.Unlocking? && UnlockStep(sem, s, s', t)
    requires s.threads[t].phase.i <= |LockOrder(sem, s.threads[t].cmd)|
    ensures LocksAgree(sem, s')
  {
    var c, i := s.threads[t].cmd, s.threads[t].phase.i;
    var q := LockOrder(sem, c);
    if i == 0 {
      forall x: nat ensures AgreeAt(sem, s', x) {
        assert AgreeAt(sem, s, x);
        OtherShardAgrees(sem, s, s', t, x + 1, x);
      }
    } else {
      var sh := q[i - 1];
      assert AgreeAt(sem, s, sh);
      UnlockedShardAgrees(sem, s, s', t);
      PrefixGrows(q, i - 1);
      forall x: nat | x != sh ensures AgreeAt(sem, s', x) {
        assert AgreeAt(sem, s, x);
        OtherShardAgrees(sem, s, s', t, sh, x);
      }
    }
  }

  /** Unlocking takes the mutex back from exactly this thread, which did hold the shard in that mode: no fatal error. */
  lemma {:induction false} UnlockedShardAgrees<C>(sem: Sem<C>, s: State<C>, s': State<C>, t: nat)
    requires t in s.threads && s.threads[t].phase.Unlocking? && UnlockStep(sem, s, s', t)
    requires 0 < s.threads[t].phase.i <= |LockOrder(sem, s.threads[t].cmd)|
    requires AgreeAt(sem, s, LockOrder(sem, s.threads[t].cmd)[s.threads[t].phase.i - 1])
    ensures var sh := LockOrder(sem, s.threads[t].cmd)[s.threads[t].phase.i - 1];
            && AgreeAt(sem, s', sh) && s'.crashed == s.crashed && ChangesOnly(s, s', t, sh)
            && s'.threads[t].phase == Unlocking(s.threads[t].phase.i - 1)
            && (if sh in WriteShards(sem, s.threads[t].cmd) then HoldsForWriting(sem, s, t, sh) else HoldsForReading(sem, s, t, sh))
  {
    var c, i := s.threads[t].cmd, s.threads[t].phase.i;
    var q := LockOrder(sem, c);
    var sh := q[i - 1];
    PrefixGrows(q, i - 1);
    assert sh in Held(sem, s.threads[t]);
    if sh in WriteShards(sem, c) {
      assert HoldsForWriting(sem, s, t, sh);
    } else {
      assert HoldsForReading(sem, s, t, sh);
      assert !Mu(s, sh).owned;
    }
    assert IsTaken(Mu(s, sh), sh in WriteShards(sem, c));
    assert sh !in Held(sem, s'.threads[t]);
    assert !HoldsForReading(sem, s', t, sh) && !HoldsForWriting(sem, s', t, sh);
    forall u: nat | u != t
      ensures HoldsForReading(sem, s', u, sh) <==> HoldsForReading(sem, s, u, sh)
      ensures HoldsForWriting(sem, s', u, sh) <==> HoldsForWriting(sem, s, u, sh)
    {
    }
  }

  lemma {:induction false} RunStepAgrees<C>(sem: Sem<C>, s: State<C>, s': State<C>, t: nat)
    requires LocksAgree(sem, s) && t in s.threads && s.threads[t].phase.Running? && RunStep(sem, s, s', t)
    requires NeverClears(sem, s.threads[t].cmd)
    ensures LocksAgree(sem, s')
  {
    var q := LockOrder(sem, s.threads[t].cmd);
    PrefixWhole(q, Shards(sem, s.threads[t].cmd), |q|);
    forall x: nat ensures AgreeAt(sem, s', x) {
      assert AgreeAt(sem, s, x);
      OtherShardAgrees(sem, s, s', t, x + 1, x);
    }
  }

  lemma {:induction false} SpawnAgrees<C>(sem: Sem<C>, s: State<C>, s': State<C>, t: nat, c: C)
    requires LocksAgree(sem, s) && Spawn(s, s', t, c)
    ensures LocksAgree(sem, s')
  {
    forall x: nat ensures AgreeAt(sem, s', x) {
      assert AgreeAt(sem, s, x);
      assert Held(sem, s'.threads[t]) == {};
      forall u: nat
        ensures HoldsForReading(sem, s', u, x) <==> HoldsForReading(sem, s, u, x)
        ensures HoldsForWriting(sem, s', u, x) <==> HoldsForWriting(sem, s, u, x)
      {
      }
    }
  }

  // ----- no deadlock -----

  /** The mutex lets thread `t` take its next step towards shard `sh`. */
  ghost predicate LetsIn<C>(sem: Sem<C>, s: State<C>, t: nat, sh: nat)
    requires Wants(sem, s, t, sh)
  {
    var m := Mu(s, sh);
    m.writer == None || (sh in WriteShards(sem, s.threads[t].cmd) && m.writer == Some(t) && m.readers == {})
  }

  lemma {:induction false} StepsIn<C>(sem: Sem<C>, s: State<C>, t: nat, sh: nat) returns (s': State<C>)
    requires !s.crashed && Wants(sem, s, t, sh) && LetsIn(sem, s, t, sh)
    ensures ThreadStep(sem, s, s', t)
  {
    var c, i, m := s.threads[t].cmd, s.threads[t].phase.i, Mu(s, sh);
    if sh !in WriteShards(sem, c) {
      s' := WithPhase(WithLock(s, sh, m.(readers := m.readers + {t})), t, Locking(i + 1));
    } else if m.writer == None {
      s' := WithLock(s, sh, m.(writer := Some(t), owned := false));
    } else {
      s' := WithPhase(WithLock(s, sh, m.(owned := true)), t, Locking(i + 1));
    }
  }

  /** A thread that waits for no shard can always step, unless it has finished. */
  lemma {:induction false} StepsFreely<C>(sem: Sem<C>, s: State<C>, t: nat) returns (s': State<C>)
    requires !s.crashed && t in s.threads && s.threads[t].phase != Finished && forall sh: nat :: !Wants(sem, s, t, sh)
    ensures ThreadStep(sem, s, s', t)
  {
    var c := s.threads[t].cmd;
    var q := LockOrder(sem, c);
    match s.threads[t].phase
    case Locking(i) =>
      if i < |q| { assert Wants(sem, s, t, q[i]); }
      s' := WithPhase(s, t, Running(INIT, false));
    case Running(l, logged) =>
      var a := sem.next(c, l);
      s' := if a == Done then WithPhase(s, t, Unlocking(|q|))
            else WithPhase(s, t, Running(sem.after(c, l, SeenBy(a, s.store)), logged || a == Log))
                 .(store := Perform(a, s.store), log := if a == Log then s.log + [c] else s.log,
                   locks := LocksAfter(sem, a, s.locks));
    case Unlocking(i) =>
      if i == 0 || i > |q| {
        s' := WithPhase(s, t, Finished);
      } else {
        s' := Gives(sem, s, t);
      }
  }

  lemma {:induction false} Gives<C>(sem: Sem<C>, s: State<C>, t: nat) returns (s': State<C>)
    requires t in s.threads && s.threads[t].phase.Unlocking?
    requires 0 < s.threads[t].phase.i <= |LockOrder(sem, s.threads[t].cmd)|
    ensures UnlockStep(sem, s, s', t)
  {
    var c, i := s.threads[t].cmd, s.threads[t].phase.i;
    var sh := LockOrder(sem, c)[i - 1];
    var m, write := Mu(s, sh), sh in WriteShards(sem, c);
    if IsTaken(m, write) {
      var m' := ReleaseExists(m, t, write);
      s' := WithPhase(WithLock(s, sh, m'), t, Unlocking(i - 1));
    } else {
      s' := s.(crashed := true);
    }
  }

  ghost function WantedAbove<C>(sem: Sem<C>, s: State<C>, sh: nat): set<nat> {
    set t | t in s.threads && s.threads[t].phase.Locking?
            && s.threads[t].phase.i < |LockOrder(sem, s.threads[t].cmd)|
            && LockOrder(sem, s.threads[t].cmd)[s.threads[t].phase.i] > sh
          :: LockOrder(sem, s.threads[t].cmd)[s.threads[t].phase.i]
  }

  /** Ascending acquisition: whoever holds a shard waits, if at all, for a higher one. */
  lemma {:induction false} HolderWantsHigher<C>(sem: Sem<C>, s: State<C>, u: nat, held: nat, sh: nat)
    requires u in s.threads && held in Held(sem, s.threads[u]) && Wants(sem, s, u, sh)
    ensures held < sh
  {
    var q, i := LockOrder(sem, s.threads[u].cmd), s.threads[u].phase.i;
    var j :| 0 <= j < i && j < |q| && q[j] == held;
  }

  /** Follow the chain of waiting threads upwards until one can step. */
  lemma {:induction false} WaitingChainEnds<C>(sem: Sem<C>, s: State<C>, t: nat, sh: nat) returns (u: nat, s': State<C>)
    requires LocksAgree(sem, s) && Wants(sem, s, t, sh)
    ensures ThreadStep(sem, s, s', u)
    decreases WantedAbove(sem, s, sh)
  {
    var m := Mu(s, sh);
    assert AgreeAt(sem, s, sh);
    if LetsIn(sem, s, t, sh) {
      u := t;
      s' := StepsIn(sem, s, t, sh);
    } else if !m.owned && m.readers == {} {
      u := m.writer.value;
      s' := StepsIn(sem, s, u, sh);
    } else {
      HolderExists(sem, s, sh);
      u :| u in s.threads && sh in Held(sem, s.threads[u]);
      assert !s.threads[u].phase.Finished?;
      if exists x: nat :: Wants(sem, s, u, x) {
        var x: nat :| Wants(sem, s, u, x);
        HolderWantsHigher(sem, s, u, sh, x);
        assert x in WantedAbove(sem, s, sh) && x !in WantedAbove(sem, s, x);
        u, s' := WaitingChainEnds(sem, s, u, x);
      } else {
        s' := StepsFreely(sem, s, u);
      }
    }
  }

  lemma {:induction false} HolderExists<C>(sem: Sem<C>, s: State<C>, sh: nat)
    requires AgreeAt(sem, s, sh) && (Mu(s, sh).owned || Mu(s, sh).readers != {})
    ensures exists u :: u in s.threads && sh in Held(sem, s.threads[u])
  {
    var m := Mu(s, sh);
    if m.owned {
      assert HoldsForWriting(sem, s, m.writer.value, sh);
    } else {
      var u :| u in m.readers;
      assert HoldsForReading(sem, s, u, sh);
    }
  }

  /** No state in which locks and threads agree is a deadlock: some thread steps while any is unfinished. */
  lemma {:induction false} NoDeadlock<C>(sem: Sem<C>, s: State<C>)
    requires LocksAgree(sem, s) && exists t :: t in s.threads && s.threads[t].phase != Finished
    ensures exists u, s' :: ThreadStep(sem, s, s', u)
  {
    var t :| t in s.threads && s.threads[t].phase != Finished;
    if exists sh: nat :: Wants(sem, s, t, sh) {
      var sh: nat :| Wants(sem, s, t, sh);
      var u, s' := WaitingChainEnds(sem, s, t, sh);
    } else {
      var s' := StepsFreely(sem, s, t);
    }
  }

  // ----- whole runs -----

  ghost predicate PhasesInRange<C>(sem: Sem<C>, s: State<C>) {
    forall t :: t in s.threads && s.threads[t].phase.Unlocking? ==>
      s.threads[t].phase.i <= |LockOrder(sem, s.threads[t].cmd)|
  }

  ghost predicate NobodyClears<C>(sem: Sem<C>, s: State<C>) {
    forall t :: t in s.threads ==> NeverClears(sem, s.threads[t].cmd)
  }

  lemma {:induction false} StepKeepsLocks<C(!new)>(sem: Sem<C>, s: State<C>, s': State<C>)
    requires LocksAgree(sem, s) && PhasesInRange(sem, s) && Step(sem, s, s') && NobodyClears(sem, s)
    ensures LocksAgree(sem, s') && PhasesInRange(sem, s')
  {
    if t, c :| Spawn(s, s', t, c) {
      SpawnAgrees(sem, s, s', t, c);
    } else {
      var t :| ThreadStep(sem, s, s', t);
      match s.threads[t].phase
      case Locking(_) => LockStepAgrees(sem, s, s', t);
      case Running(_, _) => RunStepAgrees(sem, s, s', t);
      case Unlocking(_) => UnlockStepAgrees(sem, s, s', t);
    }
  }

  ghost function Start<C>(init: Store): State<C> {
    State(map[], map[], init, [], false)
  }

  /** A run begins with no threads; commands arrive and threads step in any order. */
  ghost predicate IsRun<C(!new)>(sem: Sem<C>, init: Store, run: seq<State<C>>) {
    |run| > 0 && run[0] == Start(init) && forall i :: 0 <= i < |run| - 1 ==> Step(sem, run[i], run[i + 1])
  }

  /** No command of the run replaces a table. */
  ghost predicate TablesStay<C(!new)>(sem: Sem<C>, run: seq<State<C>>) {
    forall i :: 0 <= i < |run| ==> NobodyClears(sem, run[i])
  }

  /** As long as no table is replaced, mutexes and threads agree in every state of every run, and nothing crashes. */
  lemma {:induction false} RunKeepsLocks<C(!new)>(sem: Sem<C>, init: Store, run: seq<State<C>>, i: nat)
    requires IsRun(sem, init, run) && TablesStay(sem, run) && i < |run|
    ensures LocksAgree(sem, run[i]) && PhasesInRange(sem, run[i])
  {
    if i == 0 {
      forall sh: nat ensures AgreeAt(sem, run[0], sh) { }
    } else {
      RunKeepsLocks(sem, init, run, i - 1);
      StepKeepsLocks(sem, run[i - 1], run[i]);
    }
  }

  /** In every state of every run that replaces no table, a shard held for writing is held by no other thread. */
  lemma {:induction false} MutualExclusion<C(!new)>(sem: Sem<C>, init: Store, run: seq<State<C>>, i: nat, t: nat, u: nat, sh: nat)
    requires IsRun(sem, init, run) && TablesStay(sem, run) && i < |run| && t != u && HoldsForWriting(sem, run[i], t, sh)
    ensures !HoldsForWriting(sem, run[i], u, sh) && !HoldsForReading(sem, run[i], u, sh)
  {
    RunKeepsLocks(sem, init, run, i);
    if u in run[i].threads { WriterIsAlone(sem, run[i], t, u, sh); }
  }

  /** No run that replaces no table gets stuck: while a command is unfinished, some thread can step. */
  lemma {:induction false} NoRunDeadlocks<C(!new)>(sem: Sem<C>, init: Store, run: seq<State<C>>, last: State<C>, t: nat)
    requires IsRun(sem, init, run) && TablesStay(sem, run) && last == run[|run| - 1]
    requires t in last.threads && last.threads[t].phase != Finished
    ensures exists u, s' :: ThreadStep(sem, last, s', u)
  {
    RunKeepsLocks(sem, init, run, |run| - 1);
    NoDeadlock(sem, last);
  }

  // ----- commands and their log entries -----

  ghost predicate SameCommands<C>(s: State<C>, s': State<C>) {
    forall t :: t in s.threads ==> t in s'.threads && s'.threads[t].cmd == s.threads[t].cmd
  }

  /** The command of some thread, and one that logs. */
  ghost predicate FromThread<C>(sem: Sem<C>, s: State<C>, c: C) {
    (exists t :: t in s.threads && s.threads[t].cmd == c) && exists l :: sem.next(c, l) == Log
  }

  ghost predicate LogFromThreads<C>(sem: Sem<C>, s: State<C>) {
    forall i :: 0 <= i < |s.log| ==> FromThread(sem, s, s.log[i])
  }

  lemma {:induction false} ThreadStepLogs<C>(sem: Sem<C>, s: State<C>, s': State<C>, t: nat)
    requires ThreadStep(sem, s, s', t)
    ensures SameCommands(s, s')
    ensures s'.log == s.log || (s'.log == s.log + [s.threads[t].cmd] && FromThread(sem, s', s.threads[t].cmd))
  {
    if s.threads[t].phase.Running? {
      var c, l := s.threads[t].cmd, s.threads[t].phase.l;
      assert t in s'.threads && s'.threads[t].cmd == c;
    }
  }

  lemma {:induction false} StepKeepsCommands<C(!new)>(sem: Sem<C>, s: State<C>, s': State<C>)
    requires Step(sem, s, s')
    ensures SameCommands(s, s') && (LogFromThreads(sem, s) ==> LogFromThreads(sem, s'))
  {
    if t :| ThreadStep(sem, s, s', t) {
      ThreadStepLogs(sem, s, s', t);
    }
    if LogFromThreads(sem, s) {
      forall i | 0 <= i < |s.log| ensures FromThread(sem, s', s.log[i]) {
        assert FromThread(sem, s, s.log[i]);
        var u :| u in s.threads && s.threads[u].cmd == s.log[i];
        assert u in s'.threads && s'.threads[u].cmd == s.log[i];
      }
    }
  }

  /** Threads keep their commands, and every logged command is the command of a thread. */
  lemma {:induction false} RunKeepsCommands<C(!new)>(sem: Sem<C>, init: Store, run: seq<State<C>>, i: nat, j: nat)
    requires IsRun(sem, init, run) && i <= j < |run|
    ensures SameCommands(run[i], run[j]) && LogFromThreads(sem, run[j])
    decreases j
  {
    if j > 0 {
      RunKeepsCommands(sem, init, run, if i < j then i else j - 1, j - 1);
      StepKeepsCommands(sem, run[j - 1], run[j]);
    }
  }
}
