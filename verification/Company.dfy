/**
 Which commands may run beside others. A command is safe in company when no run that mixes it with commands that
 keep their footprint and log their changes ever leaves a store that differs from the serial run of the log.
 */
module Company {
  import opened Bytes
  import opened Decimal
  import opened Values
  import opened Pouring
  import opened Programs
  import opened LockProtocol
  import SerialOrder
  import opened Commands
  import Bits
  import Dict

  // ----- reachable states -----

  ghost predicate Reachable(sem: Sem<Cmd>, init: Store, s: State<Cmd>) {
    exists run :: IsRun(sem, init, run) && run[|run| - 1] == s
  }

  lemma {:induction false} ReachStart(sem: Sem<Cmd>, init: Store)
    ensures Reachable(sem, init, Start(init))
  {
    assert IsRun(sem, init, [Start(init)]);
  }

  lemma {:induction false} ReachNext(sem: Sem<Cmd>, init: Store, s: State<Cmd>, s': State<Cmd>)
    requires Reachable(sem, init, s) && Step(sem, s, s')
    ensures Reachable(sem, init, s')
  {
    var run :| IsRun(sem, init, run) && run[|run| - 1] == s;
    assert IsRun(sem, init, run + [s']);
  }

  // ----- taking the locks without contention -----

  /** Nobody stands in the way of the command. */
  ghost predicate Unhindered(sem: Sem<Cmd>, s: State<Cmd>, c: Cmd, sh: nat) {
    Mu(s, sh).writer == None && (sh in WriteShards(sem, c) ==> Mu(s, sh).readers == {})
  }

  /** Thread `t` with command `c` has been added in the given phase; only locks of `c` changed, and they let readers share. */
  ghost predicate Joined(sem: Sem<Cmd>, s: State<Cmd>, s': State<Cmd>, t: nat, c: Cmd, p: Phase) {
    && !s'.crashed && s'.threads == s.threads[t := Thread(c, p)] && s'.store == s.store && s'.log == s.log
    && (forall sh :: sh !in WriteShards(sem, c) ==> Mu(s', sh).writer == Mu(s, sh).writer)
    && (forall sh :: sh !in Shards(sem, c) ==> Mu(s', sh) == Mu(s, sh))
  }

  lemma {:induction false} TakeLocks(sem: Sem<Cmd>, init: Store, s: State<Cmd>, t: nat, c: Cmd, i: nat) returns (s': State<Cmd>)
    requires Reachable(sem, init, s) && !s.crashed && t !in s.threads && i <= |LockOrder(sem, c)|
    requires forall sh :: sh in Shards(sem, c) ==> Unhindered(sem, s, c, sh)
    ensures Reachable(sem, init, s') && Joined(sem, s, s', t, c, Locking(i))
    ensures forall j :: i <= j < |LockOrder(sem, c)| ==> Mu(s', LockOrder(sem, c)[j]) == Mu(s, LockOrder(sem, c)[j])
  {
    var q := LockOrder(sem, c);
    if i == 0 {
      s' := s.(threads := s.threads[t := Thread(c, Locking(0))]);
      assert Spawn(s, s', t, c);
      ReachNext(sem, init, s, s');
    } else {
      var s1 := TakeLocks(sem, init, s, t, c, i - 1);
      var sh := q[i - 1];
      assert sh in q && sh in Shards(sem, c);
      s' := TakeLock(sem, init, s1, t, c, i - 1);
      forall j | i <= j < |q| ensures Mu(s', q[j]) == Mu(s, q[j]) { assert q[i - 1] < q[j]; }
      assert s'.threads == s.threads[t := Thread(c, Locking(i))];
    }
  }

  /** A writer first announces itself, and then owns the mutex. */
  lemma {:induction false} TakeWriteLock(sem: Sem<Cmd>, init: Store, s: State<Cmd>, t: nat, c: Cmd, i: nat) returns (s': State<Cmd>)
    requires Reachable(sem, init, s) && !s.crashed && t in s.threads && s.threads[t] == Thread(c, Locking(i))
    requires i < |LockOrder(sem, c)| && LockOrder(sem, c)[i] in WriteShards(sem, c)
    requires Unhindered(sem, s, c, LockOrder(sem, c)[i])
    ensures Reachable(sem, init, s') && !s'.crashed
    ensures s'.threads == s.threads[t := Thread(c, Locking(i + 1))] && s'.store == s.store && s'.log == s.log
    ensures forall x: nat :: x != LockOrder(sem, c)[i] ==> Mu(s', x) == Mu(s, x)
  {
    var sh := LockOrder(sem, c)[i];
    var s1 := WithLock(s, sh, Mu(s, sh).(writer := Some(t), owned := false));
    assert ThreadStep(sem, s, s1, t);
    ReachNext(sem, init, s, s1);
    s' := WithPhase(WithLock(s1, sh, Mu(s1, sh).(owned := true)), t, Locking(i + 1));
    assert ThreadStep(sem, s1, s', t);
    ReachNext(sem, init, s1, s');
  }

  lemma {:induction false} TakeLock(sem: Sem<Cmd>, init: Store, s: State<Cmd>, t: nat, c: Cmd, i: nat) returns (s': State<Cmd>)
    requires Reachable(sem, init, s) && !s.crashed && t in s.threads && s.threads[t] == Thread(c, Locking(i))
    requires i < |LockOrder(sem, c)|
    requires Unhindered(sem, s, c, LockOrder(sem, c)[i])
    ensures Reachable(sem, init, s') && !s'.crashed
    ensures s'.threads == s.threads[t := Thread(c, Locking(i + 1))] && s'.store == s.store && s'.log == s.log
    ensures forall x: nat :: x != LockOrder(sem, c)[i] ==> Mu(s', x) == Mu(s, x)
    ensures var sh := LockOrder(sem, c)[i]; sh !in WriteShards(sem, c) ==> Mu(s', sh).writer == None
  {
    var sh := LockOrder(sem, c)[i];
    var m := Mu(s, sh);
    if sh in WriteShards(sem, c) {
      s' := TakeWriteLock(sem, init, s, t, c, i);
    } else {
      s' := WithPhase(WithLock(s, sh, m.(readers := m.readers + {t})), t, Locking(i + 1));
      assert ThreadStep(sem, s, s', t);
      ReachNext(sem, init, s, s');
    }
  }

  lemma {:induction false} Enter(sem: Sem<Cmd>, init: Store, s: State<Cmd>, t: nat, c: Cmd) returns (s': State<Cmd>)
    requires Reachable(sem, init, s) && !s.crashed && t !in s.threads
    requires forall sh :: sh in Shards(sem, c) ==> Unhindered(sem, s, c, sh)
    ensures Reachable(sem, init, s') && Joined(sem, s, s', t, c, Running(INIT, false))
  {
    var n := |LockOrder(sem, c)|;
    var s1 := TakeLocks(sem, init, s, t, c, n);
    s' := WithPhase(s1, t, Running(INIT, false));
    assert ThreadStep(sem, s1, s', t);
    ReachNext(sem, init, s1, s');
  }

  // ----- one access -----

  lemma {:induction false} Access(sem: Sem<Cmd>, init: Store, s: State<Cmd>, t: nat, c: Cmd, l: Local, logged: bool)
      returns (s': State<Cmd>)
    requires Reachable(sem, init, s) && !s.crashed && t in s.threads && s.threads[t] == Thread(c, Running(l, logged))
    ensures Reachable(sem, init, s') && !s'.crashed && s'.locks == LocksAfter(sem, sem.next(c, l), s.locks)
    ensures var a := sem.next(c, l);
            if a == Done then
              s'.threads == s.threads[t := Thread(c, Unlocking(|LockOrder(sem, c)|))] && s'.store == s.store && s'.log == s.log
            else
              && s'.threads == s.threads[t := Thread(c, Running(sem.after(c, l, SeenBy(a, s.store)), logged || a == Log))]
              && s'.store == Perform(a, s.store) && s'.log == if a == Log then s.log + [c] else s.log
  {
    var a := sem.next(c, l);
    if a == Done {
      s' := WithPhase(s, t, Unlocking(|LockOrder(sem, c)|));
    } else {
      s' := WithPhase(s, t, Running(sem.after(c, l, SeenBy(a, s.store)), logged || a == Log))
            .(store := Perform(a, s.store), log := if a == Log then s.log + [c] else s.log,
              locks := LocksAfter(sem, a, s.locks));
    }
    assert ThreadStep(sem, s, s', t);
    ReachNext(sem, init, s, s');
  }

  // ----- safe in company -----

  ghost predicate AtRest(s: State<Cmd>) {
    forall t :: t in s.threads ==> !s.threads[t].phase.Running?
  }

  /** As every command that a client sends. */
  predicate InOneDb(c: Cmd) {
    forall k, k' :: k in WriteKeys(c) + ReadKeys(c) && k' in WriteKeys(c) + ReadKeys(c) ==> k.db == k'.db
  }

  predicate Decent(w: World, c: Cmd) {
    InOneDb(c) && KeepsFootprint(w, c) && NoLateError(w, c)
  }

  ghost predicate InCompany(w: World, s: State<Cmd>, c: Cmd) {
    forall t :: t in s.threads ==> s.threads[t].cmd == c || Decent(w, s.threads[t].cmd)
  }

  ghost predicate Serialised(sem: Sem<Cmd>, init: Store, s: State<Cmd>) {
    s.store == Serial(sem, init, s.log)
  }

  ghost predicate SafeInCompany(w: World, c: Cmd) {
    var sem := Semantics(w);
    forall init, s :: Reachable(sem, init, s) && InCompany(w, s, c) && AtRest(s) ==> Serialised(sem, init, s)
  }

  lemma {:induction false} GoodIsSafe(w: World, c: Cmd)
    requires KeepsFootprint(w, c) && NoLateError(w, c)
    ensures SafeInCompany(w, c)
  {
    var sem := Semantics(w);
    forall init, s | Reachable(sem, init, s) && InCompany(w, s, c) && AtRest(s) ensures Serialised(sem, init, s) {
      var run: seq<State<Cmd>> :| IsRun(sem, init, run) && run[|run| - 1] == s;
      CompanyIsGood(w, c, init, run);
      SerialOrder.LogIsSerialOrder(sem, init, run);
    }
  }

  lemma {:induction false} CompanyIsGood(w: World, c: Cmd, init: Store, run: seq<State<Cmd>>)
    requires KeepsFootprint(w, c) && NoLateError(w, c)
    requires IsRun(Semantics(w), init, run) && InCompany(w, run[|run| - 1], c)
    ensures SerialOrder.AllGood(Semantics(w), run)
  {
    var sem := Semantics(w);
    SemanticsWellFormed(w);
    forall i, t | 0 <= i < |run| && t in run[i].threads ensures SerialOrder.Good(sem, run[i].threads[t].cmd) {
      var x := run[i].threads[t].cmd;
      RunKeepsCommands(sem, init, run, i, |run| - 1);
      assert run[|run| - 1].threads[t].cmd == x;
      FootprintExactly(w, x);
      QuietExactly(w, x);
    }
  }

  // ----- two threads side by side -----

  lemma {:induction false} SerialTwo(w: World, init: Store, a: Cmd, b: Cmd)
    ensures Serial(Semantics(w), init, [a, b]) == Effect(w, b, Effect(w, a, init))
  {
    var sem := Semantics(w);
    assert [a, b][..1] == [a] && [a][..0] == [];
    assert Serial(sem, init, []) == init;
    assert Serial(sem, init, [a]) == Exec(sem, a, init);
    Meaning(w, a, init);
    Meaning(w, b, Effect(w, a, init));
  }

  lemma {:induction false} Disproves(w: World, c: Cmd, init: Store, s: State<Cmd>)
    requires Reachable(Semantics(w), init, s) && InCompany(w, s, c) && AtRest(s)
    requires s.store != Serial(Semantics(w), init, s.log)
    ensures !SafeInCompany(w, c)
  {
    assert !Serialised(Semantics(w), init, s);
  }

  /** One of two threads: between two accesses, or done with them. */
  datatype Side = Live(l: Local, logged: bool) | Over

  predicate Shows(p: Phase, x: Side) {
    match x
    case Live(l, logged) => p == Running(l, logged)
    case Over => p.Unlocking?
  }

  /** The two threads stand as given, and the whole state can be reached. */
  ghost predicate Stands(w: World, init: Store, s: State<Cmd>, a: Cmd, b: Cmd, x: Side, y: Side, store: Store, log: seq<Cmd>) {
    && Reachable(Semantics(w), init, s) && !s.crashed && s.threads.Keys == {0, 1}
    && s.threads[0].cmd == a && s.threads[1].cmd == b
    && Shows(s.threads[0].phase, x) && Shows(s.threads[1].phase, y)
    && s.store == store && s.log == log
  }

  /** One access of the command takes the thread from `x` to `x'`. */
  predicate Moves(w: World, c: Cmd, x: Side, x': Side, store: Store, store': Store, log: seq<Cmd>, log': seq<Cmd>) {
    x.Live? &&
    var n := Next(w, c, x.l);
    if n == Done then x' == Over && store' == store && log' == log
    else
      && x' == Live(After(w, c, x.l, SeenBy(n, store)), x.logged || n == Log)
      && store' == Perform(n, store) && log' == if n == Log then log + [c] else log
  }

  lemma {:induction false} First(w: World, init: Store, s: State<Cmd>, a: Cmd, b: Cmd, x: Side, y: Side,
      store: Store, log: seq<Cmd>, x': Side, store': Store, log': seq<Cmd>) returns (s': State<Cmd>)
    requires Stands(w, init, s, a, b, x, y, store, log) && Moves(w, a, x, x', store, store', log, log')
    ensures Stands(w, init, s', a, b, x', y, store', log')
  {
    s' := Access(Semantics(w), init, s, 0, a, x.l, x.logged);
  }

  lemma {:induction false} Second(w: World, init: Store, s: State<Cmd>, a: Cmd, b: Cmd, x: Side, y: Side,
      store: Store, log: seq<Cmd>, y': Side, store': Store, log': seq<Cmd>) returns (s': State<Cmd>)
    requires Stands(w, init, s, a, b, x, y, store, log) && Moves(w, b, y, y', store, store', log, log')
    ensures Stands(w, init, s', a, b, x, y', store', log')
  {
    s' := Access(Semantics(w), init, s, 1, b, y.l, y.logged);
  }

  const FRESH := Live(INIT, false)

  /** Both commands hold their locks and have made no access yet. */
  lemma {:induction false} EnterBoth(w: World, init: Store, a: Cmd, b: Cmd) returns (s: State<Cmd>)
    requires Shards(Semantics(w), a) !! WriteShards(Semantics(w), b)
    requires WriteShards(Semantics(w), a) !! Shards(Semantics(w), b)
    ensures Stands(w, init, s, a, b, FRESH, FRESH, init, [])
  {
    var sem := Semantics(w);
    ReachStart(sem, init);
    var s1 := Enter(sem, init, Start(init), 0, a);
    forall sh | sh in Shards(sem, b) ensures Unhindered(sem, s1, b, sh) { }
    s := Enter(sem, init, s1, 1, b);
  }

  lemma {:induction false} BothDone(w: World, init: Store, s: State<Cmd>, a: Cmd, b: Cmd, store: Store, log: seq<Cmd>)
    requires Stands(w, init, s, a, b, Over, Over, store, log) && Decent(w, b)
    requires store != Serial(Semantics(w), init, log)
    ensures !SafeInCompany(w, a)
  {
    Disproves(w, a, init, s);
  }

  // ----- commands that are not safe -----

  function At(pc: nat, v: Option<Value>, logged: bool): Side {
    Live(Local(pc, v, false, 0), logged)
  }

  /** The SUNIONSTORE of one source that runs beside the command. */
  function Beside(d: Key, k: Key): Cmd {
    SUnionStore(d, [k], 0)
  }

  /** SUNIONSTORE has read its source in the store `init`. */
  function HasRead(w: World, init: Store, k: Key): Side {
    At(1, Some(SetOf(UnionAt(w, 0, init, [k]))), false)
  }

  /** From the point where SUNIONSTORE has read its source and the other command is through, it writes and logs. */
  lemma {:induction false} UnionEndsLate(w: World, init: Store, s: State<Cmd>, a: Cmd, d: Key, k: Key, store: Store)
    requires d.db == k.db && Stands(w, init, s, a, Beside(d, k), Over, HasRead(w, init, k), store, [a])
    requires var done := Effect(w, Beside(d, k), Effect(w, a, init)); d !in done || done[d] != SetOf(StoredUnion(w, 0, init, [k]))
    ensures !SafeInCompany(w, a)
  {
    var b, t := Beside(d, k), store[d := SetOf(StoredUnion(w, 0, init, [k]))];
    var s' := UnionFinishes(w, init, s, a, d, k, store);
    SerialTwo(w, init, a, b);
    UnionIsDecent(w, d, k);
    BothDone(w, init, s', a, b, t, [a, b]);
  }

  lemma {:induction false} UnionIsDecent(w: World, d: Key, k: Key)
    requires d.db == k.db
    ensures Decent(w, Beside(d, k))
  {
  }

  lemma {:induction false} UnionFinishes(w: World, init: Store, s: State<Cmd>, a: Cmd, d: Key, k: Key, store: Store)
      returns (s': State<Cmd>)
    requires Stands(w, init, s, a, Beside(d, k), Over, HasRead(w, init, k), store, [a])
    ensures var t := store[d := SetOf(StoredUnion(w, 0, init, [k]))];
            Stands(w, init, s', a, Beside(d, k), Over, Over, t, [a, Beside(d, k)])
  {
    var b, v, t := Beside(d, k), Some(SetOf(UnionAt(w, 0, init, [k]))), store[d := SetOf(StoredUnion(w, 0, init, [k]))];
    var s1 := Second(w, init, s, a, b, Over, At(1, v, false), store, [a], At(2, v, false), t, [a]);
    var s2 := Second(w, init, s1, a, b, Over, At(2, v, false), t, [a], At(3, v, true), t, [a, b]);
    s' := Second(w, init, s2, a, b, Over, At(3, v, true), t, [a, b], Over, t, [a, b]);
  }

  lemma {:induction false} BesideShards(w: World, d: Key, k: Key)
    ensures WriteShards(Semantics(w), Beside(d, k)) <= {w.home(d)} && Shards(Semantics(w), Beside(d, k)) <= {w.home(k), w.home(d)}
  {
  }

  lemma {:induction false} BesideReads(w: World, init: Store, d: Key, k: Key)
    requires IsSetOrAbsent(init, k)
    ensures Moves(w, Beside(d, k), FRESH, HasRead(w, init, k), init, init, [], [])
  {
    assert [k][..0] == [] && UnionAt(w, 0, init, []) == NO_MEMBERS;
  }

  /** SUNIONSTORE reads its source first of all. */
  lemma {:induction false} UnionReadsEarly(w: World, init: Store, a: Cmd, d: Key, k: Key) returns (s: State<Cmd>)
    requires w.home(d) != w.home(k) && Shards(Semantics(w), a) !! {w.home(d)} && WriteShards(Semantics(w), a) !! {w.home(k), w.home(d)}
    requires IsSetOrAbsent(init, k)
    ensures Stands(w, init, s, a, Beside(d, k), FRESH, HasRead(w, init, k), init, [])
  {
    var b := Beside(d, k);
    BesideShards(w, d, k);
    var s0 := EnterBoth(w, init, a, b);
    BesideReads(w, init, d, k);
    s := Second(w, init, s0, a, b, FRESH, FRESH, init, [], HasRead(w, init, k), init, []);
  }

  /** GETSET holds its key for reading only, so a SUNIONSTORE that has found the key absent can finish behind it. */
  lemma {:induction false} GetSetIsUnsafe(w: World, k: Key, text: bytes, d: Key)
    requires d.db == k.db && w.home(d) != w.home(k)
    ensures !SafeInCompany(w, GetSet(k, text))
  {
    var a, sem := GetSet(k, text), Semantics(w);
    assert Shards(sem, a) <= {w.home(k)} && WriteShards(sem, a) == {};
    var s := UnionReadsEarly(w, map[], a, d, k);
    var s1 := GetSetRuns(w, s, a, Beside(d, k), HasRead(w, map[], k));
    assert d !in Effect(w, Beside(d, k), Effect(w, a, map[])) by {
      assert k in [k] && !IsSetOrAbsent(Effect(w, a, map[]), k);
    }
    UnionEndsLate(w, map[], s1, a, d, k, map[k := Str(text)]);
  }

  lemma {:induction false} GetSetRuns(w: World, s: State<Cmd>, a: Cmd, b: Cmd, y: Side) returns (s': State<Cmd>)
    requires a.GetSet? && Stands(w, map[], s, a, b, FRESH, y, map[], [])
    ensures Stands(w, map[], s', a, b, Over, y, map[a.key := Str(a.text)], [a])
  {
    var t: Store := map[a.key := Str(a.text)];
    var s1 := First(w, map[], s, a, b, FRESH, y, map[], [], At(1, None, false), map[], []);
    var s2 := First(w, map[], s1, a, b, At(1, None, false), y, map[], [], At(2, None, false), t, []);
    var s3 := First(w, map[], s2, a, b, At(2, None, false), y, t, [], At(3, None, true), t, [a]);
    s' := First(w, map[], s3, a, b, At(3, None, true), y, t, [a], Over, t, [a]);
  }

  /** RENAME deletes its source under a read lock, so a SUNIONSTORE that has read the source can finish behind it. */
  lemma {:induction false} RenameIsUnsafe(w: World, a: Cmd, d: Key)
    requires Fair(w) && (a.Rename? || a.RenameNX?) && w.home(a.src) != w.home(a.dst)
    requires d.db == a.src.db && w.home(d) != w.home(a.src) && w.home(d) != w.home(a.dst)
    ensures !SafeInCompany(w, a)
  {
    var k, v, sem := a.src, SetOf(SetState({[]}, false)), Semantics(w);
    var init: Store := map[k := v];
    assert Shards(sem, a) <= {w.home(k), w.home(a.dst)} && WriteShards(sem, a) <= {w.home(a.dst)};
    var s := UnionReadsEarly(w, init, a, d, k);
    var s1 := RenameRuns(w, s, a, Beside(d, k), HasRead(w, init, k), init, v);
    AfterRename(w, a, d, init);
    UnionEndsLate(w, init, s1, a, d, k, map[a.dst := v]);
  }

  lemma {:induction false} AfterRename(w: World, a: Cmd, d: Key, init: Store)
    requires Fair(w) && (a.Rename? || a.RenameNX?) && a.src != a.dst && init == map[a.src := SetOf(SetState({[]}, false))]
    ensures Effect(w, Beside(d, a.src), Effect(w, a, init))[d] != SetOf(StoredUnion(w, 0, init, [a.src]))
  {
    var t := Effect(w, a, init);
    assert a.src !in t;
    OneSource(w, t, a.src);
    OneSource(w, init, a.src);
  }

  lemma {:induction false} OneSource(w: World, s: Store, k: Key)
    requires Fair(w) && SetIn(Look(s, k)).members <= {[]}
    ensures StoredUnion(w, 0, s, [k]).members == SetIn(Look(s, k)).members
  {
    var sources := SourceSets(s, [k]);
    assert sources[..0] == [] && UnionOf([]) == {};
    assert UnionOf(sources) == SetIn(Look(s, k)).members;
    assert Faithful(true, []);
    FaithfulUnion(w, 0, s, [k]);
  }

  lemma {:induction false} RenameRuns(w: World, s: State<Cmd>, a: Cmd, b: Cmd, y: Side, init: Store, v: Value)
      returns (s': State<Cmd>)
    requires (a.Rename? || a.RenameNX?) && a.src != a.dst && init == map[a.src := v]
    requires Stands(w, init, s, a, b, FRESH, y, init, [])
    ensures Stands(w, init, s', a, b, Over, y, map[a.dst := v], [a])
  {
    var n := if a.Rename? then 1 else 2;
    var s1 := First(w, init, s, a, b, FRESH, y, init, [], At(1, Some(v), false), init, []);
    if a.RenameNX? {
      s1 := First(w, init, s1, a, b, At(1, Some(v), false), y, init, [], At(2, Some(v), false), init, []);
    }
    s' := RenameEnds(w, s1, a, b, y, init, v, n);
  }

  lemma {:induction false} RenameEnds(w: World, s: State<Cmd>, a: Cmd, b: Cmd, y: Side, init: Store, v: Value, n: nat)
      returns (s': State<Cmd>)
    requires (a.Rename? && n == 1) || (a.RenameNX? && n == 2)
    requires a.src != a.dst && init == map[a.src := v] && Stands(w, init, s, a, b, At(n, Some(v), false), y, init, [])
    ensures Stands(w, init, s', a, b, Over, y, map[a.dst := v], [a])
  {
    var t1: Store, t2: Store := map[a.src := v, a.dst := v], map[a.dst := v];
    assert t1 - {a.src} == t2;
    var s2 := First(w, init, s, a, b, At(n, Some(v), false), y, init, [], At(n + 1, Some(v), false), t1, []);
    var s3 := First(w, init, s2, a, b, At(n + 1, Some(v), false), y, t1, [], At(n + 2, Some(v), false), t2, []);
    s' := RenameLogs(w, s3, a, b, y, init, v, n + 2, t2);
  }

  lemma {:induction false} RenameLogs(
      w: World, s: State<Cmd>, a: Cmd, b: Cmd, y: Side, init: Store, v: Value, n: nat, t: Store) returns (s': State<Cmd>)
    requires (a.Rename? && n == 3) || (a.RenameNX? && n == 4)
    requires Stands(w, init, s, a, b, At(n, Some(v), false), y, t, [])
    ensures Stands(w, init, s', a, b, Over, y, t, [a])
  {
    var s1 := First(w, init, s, a, b, At(n, Some(v), false), y, t, [], At(n + 1, Some(v), true), t, [a]);
    s' := First(w, init, s1, a, b, At(n + 1, Some(v), true), y, t, [a], Over, t, [a]);
  }

  /** FLUSHDB takes no lock at all: a SET can come, write and log between its clearing and its logging. */
  lemma {:induction false} FlushIsUnsafe(w: World, db: nat)
    ensures !SafeInCompany(w, FlushDB(db))
  {
    var a, b := FlushDB(db), Set(Key(db, []), []);
    var none: Store, t: Store := map[], map[Key(db, []) := Str([])];
    var s := FlushClears(w, a, b);
    var s1 := SetRuns(w, s, a, b, t);
    var s' := FlushLogs(w, s1, a, b, t);
    SerialTwo(w, none, b, a);
    FlushLast(w, db, b);
    assert Decent(w, b);
    BothDone(w, none, s', a, b, t, [b, a]);
  }

  lemma {:induction false} FlushLogs(w: World, s: State<Cmd>, a: Cmd, b: Cmd, t: Store) returns (s': State<Cmd>)
    requires a.FlushDB? && Stands(w, map[], s, a, b, At(1, None, false), Over, t, [b])
    ensures Stands(w, map[], s', a, b, Over, Over, t, [b, a])
  {
    var s1 := First(w, map[], s, a, b, At(1, None, false), Over, t, [b], At(2, None, true), t, [b, a]);
    s' := First(w, map[], s1, a, b, At(2, None, true), Over, t, [b, a], Over, t, [b, a]);
  }

  lemma {:induction false} FlushLast(w: World, db: nat, b: Cmd)
    requires b.Set? && b.key.db == db
    ensures b.key !in Effect(w, FlushDB(db), Effect(w, b, map[]))
  {
  }

  lemma {:induction false} NoShards(w: World, a: Cmd)
    requires a.FlushDB?
    ensures Shards(Semantics(w), a) == {}
  {
  }

  /** FLUSHDB has cleared the database, and only then SET takes its lock, in the new table. */
  lemma {:induction false} FlushClears(w: World, a: Cmd, b: Cmd) returns (s: State<Cmd>)
    requires a.FlushDB? && b.Set?
    ensures Stands(w, map[], s, a, b, At(1, None, false), FRESH, map[], [])
  {
    var sem, none: Store := Semantics(w), map[];
    ReachStart(sem, none);
    NoShards(w, a);
    var s0 := Enter(sem, none, Start(none), 0, a);
    assert Perform(Clear(a.db), none) == none;
    var s1 := Access(sem, none, s0, 0, a, INIT, false);
    forall sh ensures Mu(s1, sh) == FREE { assert Mu(s0, sh) == FREE; }
    s := Enter(sem, none, s1, 1, b);
  }

  lemma {:induction false} SetRuns(w: World, s: State<Cmd>, a: Cmd, b: Cmd, t: Store) returns (s': State<Cmd>)
    requires b.Set? && t == map[b.key := Str(b.text)] && Stands(w, map[], s, a, b, At(1, None, false), FRESH, map[], [])
    ensures Stands(w, map[], s', a, b, At(1, None, false), Over, t, [b])
  {
    var x := At(1, None, false);
    var s1 := Second(w, map[], s, a, b, x, FRESH, map[], [], At(1, None, false), t, []);
    var s2 := Second(w, map[], s1, a, b, x, At(1, None, false), t, [], At(2, None, true), t, [b]);
    s' := Second(w, map[], s2, a, b, x, At(2, None, true), t, [b], Over, t, [b]);
  }

  /** A command that changes something without logging it is unsafe even alone. */
  lemma {:induction false} RunsAlone(w: World, init: Store, c: Cmd, k: nat) returns (s: State<Cmd>)
    requires !Logs(Semantics(w), c, init)
    ensures Reachable(Semantics(w), init, s) && !s.crashed && s.threads.Keys == {0} && s.threads[0].cmd == c && s.log == []
    ensures var (l, t) := Solo(Semantics(w), c, init, k); s.store == t && s.threads[0].phase == Running(l, false)
  {
    var sem := Semantics(w);
    if k == 0 {
      ReachStart(sem, init);
      s := Enter(sem, init, Start(init), 0, c);
    } else {
      var s0 := RunsAlone(w, init, c, k - 1);
      var (l, t) := Solo(sem, c, init, k - 1);
      assert sem.next(c, l) != Log;
      if sem.next(c, l) == Done { s := s0; } else { s := Access(sem, init, s0, 0, c, l, false); }
    }
  }

  lemma {:induction false} UnloggedIsUnsafe(w: World, init: Store, c: Cmd)
    requires !Logs(Semantics(w), c, init) && Exec(Semantics(w), c, init) != init
    ensures !SafeInCompany(w, c)
  {
    var sem := Semantics(w);
    var n := Limit(c);
    var s := RunsAlone(w, init, c, n);
    var (l, t) := Solo(sem, c, init, n);
    SemanticsWellFormed(w);
    SoloCounts(sem, c, init, n);
    assert sem.next(c, l) == Done;
    var s' := Access(sem, init, s, 0, c, l, false);
    Disproves(w, c, init, s');
  }

  predicate Elsewhere(w: World, k: Key, db: nat, x: nat, y: nat) {
    k.db == db && w.home(k) != x && w.home(k) != y
  }

  ghost predicate HasRoom(w: World, db: nat, x: nat, y: nat) {
    exists k :: Elsewhere(w, k, db, x, y)
  }

  /** However two shards are chosen, some key of each database lives in a third. */
  ghost predicate Roomy(w: World) {
    forall db: nat, x: nat, y: nat :: HasRoom(w, db, x, y)
  }

  /**
   A command is safe in all company exactly when it keeps to the footprint its prepare function declares and logs
   whatever it changes.
   */
  lemma {:induction false} SafeExactly(w: World, c: Cmd)
    requires Roomy(w) && Fair(w)
    ensures SafeInCompany(w, c) <==> KeepsFootprint(w, c) && NoLateError(w, c)
  {
    if KeepsFootprint(w, c) && NoLateError(w, c) {
      GoodIsSafe(w, c);
    } else if !NoLateError(w, c) {
      QuietExactly(w, c);
      var init: Store :| !Logs(Semantics(w), c, init) && Exec(Semantics(w), c, init) != init;
      UnloggedIsUnsafe(w, init, c);
    } else {
      UnsafeByFootprint(w, c);
    }
  }

  lemma {:induction false} UnsafeByFootprint(w: World, c: Cmd)
    requires Roomy(w) && Fair(w) && !KeepsFootprint(w, c)
    ensures !SafeInCompany(w, c)
  {
    if c.GetSet? {
      assert HasRoom(w, c.key.db, w.home(c.key), w.home(c.key));
      var d :| Elsewhere(w, d, c.key.db, w.home(c.key), w.home(c.key));
      GetSetIsUnsafe(w, c.key, c.text, d);
    } else if c.FlushDB? {
      FlushIsUnsafe(w, c.db);
    } else {
      assert HasRoom(w, c.src.db, w.home(c.src), w.home(c.dst));
      var d :| Elsewhere(w, d, c.src.db, w.home(c.src), w.home(c.dst));
      RenameIsUnsafe(w, c, d);
    }
  }

  // ----- commands that keep the locks in order -----

  /** No run that mixes the command with decent ones ever gets mutexes and threads out of agreement, let alone crashes. */
  ghost predicate LocksSafeInCompany(w: World, c: Cmd) {
    var sem := Semantics(w);
    forall init, s :: Reachable(sem, init, s) && InCompany(w, s, c) ==> LocksAgree(sem, s)
  }

  lemma OnlyFlushClears(w: World, c: Cmd, l: Local)
    requires !c.FlushDB?
    ensures !Next(w, c, l).Clear?
  {
  }

  lemma {:induction false} CompanyNeverClears(w: World, c: Cmd, init: Store, run: seq<State<Cmd>>)
    requires !c.FlushDB? && IsRun(Semantics(w), init, run) && InCompany(w, run[|run| - 1], c)
    ensures TablesStay(Semantics(w), run)
  {
    var sem := Semantics(w);
    forall i, t | 0 <= i < |run| && t in run[i].threads ensures NeverClears(sem, run[i].threads[t].cmd) {
      var x := run[i].threads[t].cmd;
      RunKeepsCommands(sem, init, run, i, |run| - 1);
      assert run[|run| - 1].threads[t].cmd == x;
      forall l ensures !sem.next(x, l).Clear? { OnlyFlushClears(w, x, l); }
    }
  }

  /** SET holds its lock while FLUSHDB replaces the table: the mutex that SET will give back is a new one. */
  lemma {:induction false} FlushReplaces(w: World, a: Cmd, b: Cmd) returns (s: State<Cmd>)
    requires OwnTables(w) && a.FlushDB? && b.Set? && b.key.db == a.db
    ensures Stands(w, map[], s, a, b, At(1, None, false), FRESH, map[], []) && Mu(s, w.home(b.key)) == FREE
  {
    var sem, none: Store := Semantics(w), map[];
    NoShards(w, a);
    var s0 := EnterBoth(w, none, a, b);
    assert Perform(Clear(a.db), none) == none;
    s := Access(sem, none, s0, 0, a, INIT, false);
    assert w.table(w.home(b.key)) == a.db;
  }

  lemma {:induction false} SetLocksItsShard(w: World, b: Cmd)
    requires b.Set?
    ensures var sem, h := Semantics(w), w.home(b.key);
            WriteShards(sem, b) == {h} && Shards(sem, b) == {h} && LockOrder(sem, b) == [h]
  {
    var sem, h := Semantics(w), w.home(b.key);
    assert sem.writeKeys(b) == [b.key] && sem.readKeys(b) == [];
    assert WriteShards(sem, b) == {h} by { assert b.key in sem.writeKeys(b); }
    OrderUnique(LockOrder(sem, b), [h], {h});
  }

  /** Then SET gives back a lock that is not taken, which is a fatal error. */
  lemma {:induction false} FlushCrashes(w: World, db: nat) returns (s: State<Cmd>)
    requires OwnTables(w)
    ensures Reachable(Semantics(w), map[], s) && s.crashed
    ensures s.threads.Keys == {0, 1} && s.threads[0].cmd == FlushDB(db) && s.threads[1].cmd == Set(Key(db, []), [])
  {
    var sem, none: Store, a, b := Semantics(w), map[], FlushDB(db), Set(Key(db, []), []);
    var s1 := FlushReplaces(w, a, b);
    SetLocksItsShard(w, b);
    var s2 := Access(sem, none, s1, 1, b, INIT, false);
    var s3 := Access(sem, none, s2, 1, b, Local(1, None, false, 0), false);
    var s4 := Access(sem, none, s3, 1, b, Local(2, None, false, 0), true);
    assert s4.threads[1] == Thread(b, Unlocking(1)) && !IsTaken(Mu(s4, w.home(b.key)), true);
    s := s4.(crashed := true);
    assert ThreadStep(sem, s4, s, 1);
    ReachNext(sem, none, s4, s);
  }

  /** And another SET gets into the same shard beside the first. */
  lemma {:induction false} FlushBreaksExclusion(w: World, db: nat) returns (s: State<Cmd>, sh: nat)
    requires OwnTables(w)
    ensures Reachable(Semantics(w), map[], s)
    ensures HoldsForWriting(Semantics(w), s, 1, sh) && HoldsForWriting(Semantics(w), s, 2, sh)
  {
    var sem, none: Store, a, b := Semantics(w), map[], FlushDB(db), Set(Key(db, []), []);
    var s1 := FlushReplaces(w, a, b);
    SetLocksItsShard(w, b);
    sh := w.home(b.key);
    s := Enter(sem, none, s1, 2, b);
    assert s.threads[1] == Thread(b, Running(INIT, false));
  }

  /** A command keeps the locks in order in all company exactly when it is not FLUSHDB. */
  lemma {:induction false} LocksSafeExactly(w: World, c: Cmd)
    requires OwnTables(w)
    ensures LocksSafeInCompany(w, c) <==> !c.FlushDB?
  {
    var sem := Semantics(w);
    if c.FlushDB? {
      var s := FlushCrashes(w, c.db);
      assert InCompany(w, s, c) && !LocksAgree(sem, s);
    } else {
      forall init, s | Reachable(sem, init, s) && InCompany(w, s, c) ensures LocksAgree(sem, s) {
        var run: seq<State<Cmd>> :| IsRun(sem, init, run) && run[|run| - 1] == s;
        CompanyNeverClears(w, c, init, run);
        RunKeepsLocks(sem, init, run, |run| - 1);
      }
    }
  }

  // ----- the shards of the server -----

  const TABLE_SIZE := 65536

  /** Every database has a table of its own, and the hash of the name picks the shard in it. */
  function Home(k: Key): nat {
    k.db * TABLE_SIZE + Dict.Spread(k.name, TABLE_SIZE)
  }

  lemma {:induction false} HomeIs(db: nat, name: bytes)
    ensures Home(Key(db, name)) == db * TABLE_SIZE + Dict.Fnv32(name) % TABLE_SIZE
  {
    assert Bits.Pow2(8) == 256;
    Bits.Pow2Add(8, 8);
    assert Dict.IsPow2(TABLE_SIZE);
    Dict.SpreadIsModulo(name, TABLE_SIZE);
  }

  lemma {:induction false} ThreeHashes()
    ensures Dict.Fnv32([]) % TABLE_SIZE == 40389
    ensures Dict.Fnv32([0]) % TABLE_SIZE == 23839
    ensures Dict.Fnv32([0, 0]) % TABLE_SIZE == 38861
  {
    assert [0][..0] == [] && [0, 0][..1] == [0];
    assert Dict.Fnv32([0]) == 84696351;
    assert Dict.Fnv32([0, 0]) == 292984781;
  }

  /** The world of the server, as far as shards go. */
  ghost predicate OnServer(w: World) {
    (forall k :: w.home(k) == Home(k)) && forall sh: nat :: w.table(sh) == sh / TABLE_SIZE
  }

  /** Three key names hash to three shards, and every table has shards of its own. */
  lemma {:induction false} HomeIsRoomy(w: World)
    requires OnServer(w)
    ensures Roomy(w) && OwnTables(w)
  {
    forall db: nat, x: nat, y: nat ensures HasRoom(w, db, x, y) {
      ThreeHashes();
      HomeIs(db, []);
      HomeIs(db, [0]);
      HomeIs(db, [0, 0]);
      assert Elsewhere(w, Key(db, []), db, x, y) || Elsewhere(w, Key(db, [0]), db, x, y)
          || Elsewhere(w, Key(db, [0, 0]), db, x, y);
    }
    forall k ensures w.table(w.home(k)) == k.db { HomeIs(k.db, k.name); }
  }
}
