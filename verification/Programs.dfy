/**
 Commands as small-step programs over one key space.

 A command is a sequence of accesses to single keys, so that other threads can come in between; `Solo` runs it
 alone. A key carries the index of its database, so one store stands for all databases of the server.
 */
module Programs {
  import opened Bytes
  import opened Decimal
  import opened Values

  datatype Key = Key(db: nat, name: bytes)
  datatype Value = Str(text: bytes) | SetOf(held: SetState) | ZSetOf(ranked: ZState)
  type Store = map<Key, Value>

  function Look(s: Store, k: Key): Option<Value> {
    if k in s then Some(s[k]) else None
  }

  /** Program counter and the few registers the command bodies use. */
  datatype Local = Local(pc: nat, value: Option<Value>, flag: bool, n: nat)

  const INIT := Local(0, None, false, 0)

  datatype Action = Read(key: Key) | Write(key: Key, value: Value) | Delete(key: Key) | Clear(db: nat) | Log | Skip | Done

  /**
   What commands do: the next access, the registers after it (given what a read found), a bound on the program
   counter, and the keys asked to be locked for writing and for reading. `home` is the shard of a key, `table` the
   database whose table has the shard.
   */
  datatype Sem<!C> = Sem(
    next: (C, Local) -> Action,
    after: (C, Local, Option<Value>) -> Local,
    limit: C -> nat,
    writeKeys: C -> seq<Key>,
    readKeys: C -> seq<Key>,
    home: Key -> nat,
    table: nat -> nat)

  /** Every access advances the program counter, it stops at the limit, and logging is the last access. */
  ghost predicate WellFormed<C(!new)>(sem: Sem<C>) {
    && (forall c: C, l: Local, v: Option<Value> :: sem.after(c, l, v).pc == l.pc + 1)
    && (forall c: C, l: Local :: l.pc >= sem.limit(c) ==> sem.next(c, l) == Done)
    && (forall c: C, l: Local, v: Option<Value> :: sem.next(c, l) == Log ==> sem.next(c, sem.after(c, l, v)) == Done)
  }

  function SeenBy(a: Action, s: Store): Option<Value> {
    if a.Read? then Look(s, a.key) else None
  }

  function Perform(a: Action, s: Store): Store {
    match a
    case Write(k, v) => s[k := v]
    case Delete(k) => s - {k}
    case Clear(db) => map k | k in s && k.db != db :: s[k]
    case _ => s
  }

  // ----- running alone -----

  /** Registers and store after `k` accesses of the command run alone. */
  ghost function Solo<C>(sem: Sem<C>, c: C, s: Store, k: nat): (r: (Local, Store)) {
    if k == 0 then (INIT, s) else
      var (l, t) := Solo(sem, c, s, k - 1);
      var a := sem.next(c, l);
      if a == Done then (l, t) else (sem.after(c, l, SeenBy(a, t)), Perform(a, t))
  }

  /** The store a command leaves behind when it runs alone. */
  ghost function Exec<C>(sem: Sem<C>, c: C, s: Store): Store {
    Solo(sem, c, s, sem.limit(c)).1
  }

  /** Commands run one at a time, each alone, in order. */
  ghost function Serial<C>(sem: Sem<C>, s: Store, log: seq<C>): Store {
    if log == [] then s else Exec(sem, log[|log| - 1], Serial(sem, s, log[..|log| - 1]))
  }

  lemma {:induction false} SoloCounts<C(!new)>(sem: Sem<C>, c: C, s: Store, k: nat)
    requires WellFormed(sem)
    ensures var l := Solo(sem, c, s, k).0; l.pc <= k && (sem.next(c, l) != Done ==> l.pc == k)
  {
    if k > 0 { SoloCounts(sem, c, s, k - 1); }
  }

  lemma {:induction false} SoloStays<C>(sem: Sem<C>, c: C, s: Store, k: nat, j: nat)
    requires k <= j && sem.next(c, Solo(sem, c, s, k).0) == Done
    ensures Solo(sem, c, s, j) == Solo(sem, c, s, k)
  {
    if k < j { SoloStays(sem, c, s, k, j - 1); }
  }

  /** Wherever the run alone is done, its store is the result. */
  lemma {:induction false} ExecIs<C(!new)>(sem: Sem<C>, c: C, s: Store, k: nat)
    requires WellFormed(sem) && sem.next(c, Solo(sem, c, s, k).0) == Done
    ensures Exec(sem, c, s) == Solo(sem, c, s, k).1
  {
    var n := sem.limit(c);
    SoloCounts(sem, c, s, n);
    if k <= n { SoloStays(sem, c, s, k, n); } else { SoloStays(sem, c, s, n, k); }
  }

  // ----- footprints -----

  ghost function WriteShards<C>(sem: Sem<C>, c: C): set<nat> {
    set k | k in sem.writeKeys(c) :: sem.home(k)
  }

  /** All shards the command locks, in either mode. */
  ghost function Shards<C>(sem: Sem<C>, c: C): set<nat> {
    WriteShards(sem, c) + set k | k in sem.readKeys(c) :: sem.home(k)
  }

  ghost predicate Allowed<C>(sem: Sem<C>, c: C, a: Action) {
    match a
    case Read(k) => sem.home(k) in Shards(sem, c)
    case Write(k, _) => sem.home(k) in WriteShards(sem, c)
    case Delete(k) => sem.home(k) in WriteShards(sem, c)
    case Clear(_) => false
    case _ => true
  }

  /** The command reads only shards it has locked and writes only shards it has locked for writing. */
  ghost predicate Respects<C>(sem: Sem<C>, c: C) {
    forall l :: Allowed(sem, c, sem.next(c, l))
  }

  /** The command replaces no table, as clearing a database does. */
  ghost predicate NeverClears<C>(sem: Sem<C>, c: C) {
    forall l :: !sem.next(c, l).Clear?
  }

  lemma {:induction false} RespectsNeverClears<C>(sem: Sem<C>, c: C)
    requires Respects(sem, c)
    ensures NeverClears(sem, c)
  {
    forall l ensures !sem.next(c, l).Clear? { assert Allowed(sem, c, sem.next(c, l)); }
  }

  /** A command that finishes without logging has changed nothing. */
  ghost predicate Quiet<C>(sem: Sem<C>, c: C) {
    forall s: Store :: !Logs(sem, c, s) ==> Exec(sem, c, s) == s
  }

  ghost predicate Logs<C>(sem: Sem<C>, c: C, s: Store) {
    exists k: nat :: sem.next(c, Solo(sem, c, s, k).0) == Log
  }

  /** Two stores agree on a set of shards. */
  ghost predicate Agree<C>(sem: Sem<C>, s: Store, t: Store, shards: set<nat>) {
    forall k :: sem.home(k) in shards ==> Look(s, k) == Look(t, k)
  }

  /** A command that respects its footprint does the same on stores that agree on it, and changes no other shard. */
  lemma {:induction false} SoloFrame<C>(sem: Sem<C>, c: C, s: Store, t: Store, k: nat)
    requires Respects(sem, c) && Agree(sem, s, t, Shards(sem, c))
    ensures Solo(sem, c, s, k).0 == Solo(sem, c, t, k).0
    ensures Agree(sem, Solo(sem, c, s, k).1, Solo(sem, c, t, k).1, Shards(sem, c))
  {
    if k > 0 {
      SoloFrame(sem, c, s, t, k - 1);
      var (l, u) := Solo(sem, c, s, k - 1);
      var (_, v) := Solo(sem, c, t, k - 1);
      assert Allowed(sem, c, sem.next(c, l));
      PerformFrame(sem, sem.next(c, l), u, v, Shards(sem, c));
    }
  }

  lemma {:induction false} PerformFrame<C>(sem: Sem<C>, a: Action, s: Store, t: Store, shards: set<nat>)
    requires Agree(sem, s, t, shards)
    ensures Agree(sem, Perform(a, s), Perform(a, t), shards)
  {
    forall k | sem.home(k) in shards ensures Look(Perform(a, s), k) == Look(Perform(a, t), k) {
      assert Look(s, k) == Look(t, k);
    }
  }

  lemma {:induction false} PerformElsewhere<C>(sem: Sem<C>, c: C, a: Action, s: Store, k: Key)
    requires Allowed(sem, c, a) && sem.home(k) !in WriteShards(sem, c)
    ensures Look(Perform(a, s), k) == Look(s, k)
  {
  }

  lemma {:induction false} SoloElsewhere<C>(sem: Sem<C>, c: C, s: Store, n: nat, k: Key)
    requires Respects(sem, c) && sem.home(k) !in WriteShards(sem, c)
    ensures Look(Solo(sem, c, s, n).1, k) == Look(s, k)
  {
    if n > 0 {
      SoloElsewhere(sem, c, s, n - 1, k);
      var (l, t) := Solo(sem, c, s, n - 1);
      assert Allowed(sem, c, sem.next(c, l));
      PerformElsewhere(sem, c, sem.next(c, l), t, k);
    }
  }
}
