/**
 Commands of database/ as small-step programs: the accesses to single keys that their bodies make, in order, and
 the keys that their prepare functions ask to have locked.
 */
module Commands {
  import opened Bytes
  import opened Collections
  import opened Decimal
  import opened Values
  import opened Pouring
  import opened Programs

  /**
   What the commands do not decide themselves: the shard of a key and the table that has it, the order in which Go goes
   through the members of a set, and what strconv.ParseFloat makes of a score text. The order may be another one every
   time: the first two numbers tell apart the calls of SUNIONSTORE and the sets one call goes through.
   */
  datatype World = World(
    home: Key -> nat,
    table: nat -> nat,
    walk: (nat, nat, set<bytes>) -> seq<bytes>,
    score: bytes -> Option<real>)

  /** Going through a set meets every member once. */
  ghost predicate Fair(w: World) {
    forall call: nat, i: nat, s: set<bytes> :: Lists(w.walk(call, i, s), s)
  }

  /** Every shard belongs to the table of one database. */
  ghost predicate OwnTables(w: World) {
    forall k :: w.table(w.home(k)) == k.db
  }

  /** `luck` is no argument of SUNIONSTORE: it stands for the orders that this call happens to meet. */
  datatype Cmd =
    | Get(key: Key)
    | Set(key: Key, text: bytes)
    | SetNX(key: Key, text: bytes)
    | GetSet(key: Key, text: bytes)
    | Del(keys: seq<Key>)
    | Rename(src: Key, dst: Key)
    | RenameNX(src: Key, dst: Key)
    | SAdd(key: Key, members: seq<bytes>)
    | SRem(key: Key, members: seq<bytes>)
    | SUnionStore(dst: Key, keys: seq<Key>, luck: nat)
    | ZAdd(key: Key, entries: seq<(bytes, bytes)>)
    | FlushDB(db: nat)

  // ----- what the prepare functions ask to have locked -----

  function WriteKeys(c: Cmd): seq<Key> {
    match c
    case Get(_) => []
    case GetSet(_, _) => []
    case Set(k, _) => [k]
    case SetNX(k, _) => [k]
    case SAdd(k, _) => [k]
    case SRem(k, _) => [k]
    case ZAdd(k, _) => [k]
    case Del(ks) => ks
    case Rename(_, dst) => [dst]
    case RenameNX(_, dst) => [dst]
    case SUnionStore(dst, _, _) => [dst]
    case FlushDB(_) => []
  }

  function ReadKeys(c: Cmd): seq<Key> {
    match c
    case Get(k) => [k]
    case GetSet(k, _) => [k]
    case Rename(src, _) => [src]
    case RenameNX(src, _) => [src]
    case SUnionStore(_, ks, _) => ks
    case _ => []
  }

  // ----- the programs -----

  /** The set that was found, or a new one. */
  function SetIn(v: Option<Value>): SetState {
    if v.Some? && v.value.SetOf? then v.value.held else NO_MEMBERS
  }

  function ZSetIn(v: Option<Value>): ZState {
    if v.Some? && v.value.ZSetOf? then v.value.ranked else NO_SCORES
  }

  /** The next access of the command. */
  function Next(w: World, c: Cmd, l: Local): Action {
    match c
    case Get(k) => if l.pc == 0 then Read(k) else Done
    case Set(k, t) => if l.pc == 0 then Write(k, Str(t)) else if l.pc == 1 then Log else Done
    case SetNX(k, t) =>
      if l.pc == 0 then Read(k)
      else if l.pc == 1 then (if l.value.Some? then Skip else Write(k, Str(t)))
      else if l.pc == 2 then Log else Done
    case GetSet(k, t) =>
      if l.pc == 0 then Read(k) else if l.pc == 1 then Write(k, Str(t)) else if l.pc == 2 then Log else Done
    case Del(ks) =>
      if l.pc < 2 * |ks| then
        var k := ks[l.pc / 2];
        if l.pc % 2 == 0 then Read(k) else if l.value.Some? then Delete(k) else Skip
      else if l.pc == 2 * |ks| && l.n > 0 then Log else Done
    case Rename(src, dst) =>
      if l.pc == 0 then Read(src)
      else if l.value.None? then Done
      else if l.pc == 1 then Write(dst, l.value.value)
      else if l.pc == 2 then Delete(src)
      else if l.pc == 3 then Log else Done
    case RenameNX(src, dst) =>
      if l.pc == 0 then Read(src)
      else if l.value.None? then Done
      else if l.pc == 1 then Read(dst)
      else if l.flag then Done
      else if l.pc == 2 then Write(dst, l.value.value)
      else if l.pc == 3 then Delete(src)
      else if l.pc == 4 then Log else Done
    case SAdd(k, ms) =>
      if l.pc == 0 then Read(k)
      else if l.value.Some? && !l.value.value.SetOf? then Done
      else if l.pc <= |ms| then
        var m := ms[l.pc - 1];
        if l.flag || Holds(SetIn(l.value), m) then Skip else Write(k, SetOf(With(SetIn(l.value), m)))
      else if l.pc == |ms| + 1 then (if l.flag || l.n > 0 then Write(k, SetOf(SetIn(l.value))) else Done)
      else if l.pc == |ms| + 2 then Log else Done
    case SRem(k, ms) =>
      if l.pc == 0 then Read(k)
      else if l.value.None? || !l.value.value.SetOf? then Done
      else if l.pc <= |ms| then
        var m := ms[l.pc - 1];
        if Holds(SetIn(l.value), m) then Write(k, SetOf(Without(SetIn(l.value), m))) else Skip
      else if l.pc == |ms| + 1 then
        (if l.n == 0 then Done else if SetIn(l.value).members == {} then Delete(k) else Write(k, SetOf(SetIn(l.value))))
      else if l.pc == |ms| + 2 then Log else Done
    case SUnionStore(dst, ks, luck) =>
      if l.flag then Done
      else if l.pc < |ks| then Read(ks[l.pc])
      else if l.pc == |ks| then Write(dst, SetOf(Poured(w.walk(luck, |ks|, SetIn(l.value).members))))
      else if l.pc == |ks| + 1 then Log else Done
    case ZAdd(k, es) =>
      if l.pc == 0 then Read(k)
      else if l.value.Some? && !l.value.value.ZSetOf? then Done
      else if l.pc <= |es| then
        var e := es[l.pc - 1];
        if w.score(e.0).None? then Done
        else if l.flag then Skip
        else Write(k, ZSetOf(Scored(ZSetIn(l.value), e.1, w.score(e.0).value)))
      else if l.pc == |es| + 1 then Write(k, ZSetOf(ZSetIn(l.value)))
      else if l.pc == |es| + 2 then Log else Done
    case FlushDB(db) => if l.pc == 0 then Clear(db) else if l.pc == 1 then Log else Done
  }

  /** The registers after the access; `seen` is what a read found. */
  function After(w: World, c: Cmd, l: Local, seen: Option<Value>): (l': Local)
    ensures l'.pc == l.pc + 1
  {
    var step := l.(pc := l.pc + 1);
    match c
    case SetNX(_, _) => if l.pc == 0 then step.(value := seen) else step
    case Del(ks) =>
      if l.pc % 2 == 0 then step.(value := seen)
      else if l.value.Some? then step.(n := l.n + 1) else step
    case Rename(_, _) => if l.pc == 0 then step.(value := seen) else step
    case RenameNX(_, _) =>
      if l.pc == 0 then step.(value := seen) else if l.pc == 1 then step.(flag := seen.Some?) else step
    case SAdd(_, ms) =>
      if l.pc == 0 then step.(value := seen, flag := seen.None?)
      else if l.pc <= |ms| && !Holds(SetIn(l.value), ms[l.pc - 1]) then
        step.(value := Some(SetOf(With(SetIn(l.value), ms[l.pc - 1]))), n := l.n + 1)
      else step
    case SRem(_, ms) =>
      if l.pc == 0 then step.(value := seen)
      else if l.pc <= |ms| && Holds(SetIn(l.value), ms[l.pc - 1]) then
        step.(value := Some(SetOf(Without(SetIn(l.value), ms[l.pc - 1]))), n := l.n + 1)
      else step
    case SUnionStore(_, ks, luck) =>
      if l.pc < |ks| then
        if seen.Some? && !seen.value.SetOf? then step.(flag := true)
        else step.(value := Some(SetOf(WithAll(SetIn(l.value), w.walk(luck, l.pc, SetIn(seen).members)))))
      else step
    case ZAdd(_, es) =>
      if l.pc == 0 then step.(value := seen, flag := seen.None?)
      else if l.pc <= |es| && w.score(es[l.pc - 1].0).Some? then
        step.(value := Some(ZSetOf(Scored(ZSetIn(l.value), es[l.pc - 1].1, w.score(es[l.pc - 1].0).value))))
      else step
    case _ => step
  }

  /** From this program counter on the command is done. */
  function Limit(c: Cmd): nat {
    match c
    case Get(_) => 1
    case Set(_, _) => 2
    case SetNX(_, _) => 3
    case GetSet(_, _) => 3
    case Del(ks) => 2 * |ks| + 1
    case Rename(_, _) => 4
    case RenameNX(_, _) => 5
    case SAdd(_, ms) => |ms| + 3
    case SRem(_, ms) => |ms| + 3
    case SUnionStore(_, ks, _) => |ks| + 2
    case ZAdd(_, es) => |es| + 3
    case FlushDB(_) => 2
  }

  lemma DoneAtLimit(w: World, c: Cmd, l: Local)
    requires l.pc >= Limit(c)
    ensures Next(w, c, l) == Done
  {
  }

  /** Logging is the last access: every write of the command comes before it. */
  lemma LogIsLast(w: World, c: Cmd, l: Local, seen: Option<Value>)
    requires Next(w, c, l) == Log
    ensures Next(w, c, After(w, c, l, seen)) == Done
  {
  }

  // ----- the semantics as a whole -----

  function Semantics(w: World): Sem<Cmd> {
    Sem((c, l) => Next(w, c, l), (c, l, seen) => After(w, c, l, seen), c => Limit(c), c => WriteKeys(c), c => ReadKeys(c),
        w.home, w.table)
  }

  lemma SemanticsWellFormed(w: World)
    ensures WellFormed(Semantics(w))
  {
    var sem := Semantics(w);
    forall c: Cmd, l: Local | l.pc >= sem.limit(c) ensures sem.next(c, l) == Done { DoneAtLimit(w, c, l); }
    forall c: Cmd, l: Local, v: Option<Value> | sem.next(c, l) == Log ensures sem.next(c, sem.after(c, l, v)) == Done {
      LogIsLast(w, c, l, v);
    }
  }

  /** Which commands keep to the shards their prepare function asks for. */
  predicate KeepsFootprint(w: World, c: Cmd) {
    match c
    case GetSet(_, _) => false
    case Rename(src, dst) => w.home(src) == w.home(dst)
    case RenameNX(src, dst) => w.home(src) == w.home(dst)
    case FlushDB(_) => false
    case _ => true
  }

  /** GETSET writes under a read lock, FLUSHDB without any, and RENAME deletes its source under a read lock. */
  lemma {:induction false} FootprintExactly(w: World, c: Cmd)
    ensures Respects(Semantics(w), c) <==> KeepsFootprint(w, c)
  {
    var sem := Semantics(w);
    if KeepsFootprint(w, c) {
      forall l: Local ensures Allowed(sem, c, sem.next(c, l)) { FootprintKept(w, c, l); }
    } else {
      var one := Some(Str([]));
      var l := match c
        case GetSet(_, _) => Local(1, None, false, 0)
        case Rename(_, _) => Local(2, one, false, 0)
        case RenameNX(_, _) => Local(3, one, false, 0)
        case _ => INIT;
      assert !Allowed(sem, c, sem.next(c, l));
    }
  }

  lemma {:induction false} FootprintKept(w: World, c: Cmd, l: Local)
    requires KeepsFootprint(w, c)
    ensures Allowed(Semantics(w), c, Next(w, c, l))
  {
    var sem := Semantics(w);
    var held, r := WriteShards(sem, c), Shards(sem, c);
    assert forall k :: k in WriteKeys(c) ==> k in sem.writeKeys(c);
    assert forall k :: k in ReadKeys(c) ==> k in sem.readKeys(c);
    assert forall k {:trigger w.home(k)} :: k in WriteKeys(c) ==> w.home(k) in held;
    assert forall k {:trigger w.home(k)} :: k in ReadKeys(c) ==> w.home(k) in r;
  }

  // ----- what the commands mean -----

  function ScoresAfter(w: World, z: ZState, es: seq<(bytes, bytes)>): ZState
    requires forall i :: 0 <= i < |es| ==> w.score(es[i].0).Some?
  {
    if es == [] then z
    else var e := es[|es| - 1]; Scored(ScoresAfter(w, z, es[..|es| - 1]), e.1, w.score(e.0).value)
  }

  /** The entries in front of the first score that does not parse. */
  function Parsed(w: World, es: seq<(bytes, bytes)>): (r: seq<(bytes, bytes)>)
    ensures r <= es && forall i :: 0 <= i < |r| ==> w.score(r[i].0).Some?
    ensures |r| < |es| ==> w.score(es[|r|].0).None?
  {
    if es == [] || w.score(es[0].0).None? then [] else [es[0]] + Parsed(w, es[1..])
  }

  /** The sources of SUNIONSTORE poured into one new set. */
  function UnionAt(w: World, luck: nat, s: Store, ks: seq<Key>): SetState {
    if ks == [] then NO_MEMBERS
    else
      var n := |ks| - 1;
      WithAll(UnionAt(w, luck, s, ks[..n]), w.walk(luck, n, SetIn(Look(s, ks[n])).members))
  }

  /** What SUNIONSTORE stores: the members of that set, poured into another. */
  function StoredUnion(w: World, luck: nat, s: Store, ks: seq<Key>): SetState {
    Poured(w.walk(luck, |ks|, UnionAt(w, luck, s, ks).members))
  }

  predicate IsSetOrAbsent(s: Store, k: Key) {
    k in s ==> s[k].SetOf?
  }

  /** The store after the command, on plain maps. */
  function Effect(w: World, c: Cmd, s: Store): Store {
    match c
    case Get(_) => s
    case Set(k, t) => s[k := Str(t)]
    case SetNX(k, t) => if k in s then s else s[k := Str(t)]
    case GetSet(k, t) => s[k := Str(t)]
    case Del(ks) => s - Elements(ks)
    case Rename(src, dst) => if src in s then s[dst := s[src]] - {src} else s
    case RenameNX(src, dst) => if src in s && dst !in s then s[dst := s[src]] - {src} else s
    case SAdd(k, ms) => if IsSetOrAbsent(s, k) then s[k := SetOf(WithAll(SetIn(Look(s, k)), ms))] else s
    case SRem(k, ms) =>
      if k !in s || !s[k].SetOf? then s
      else
        var x := WithoutAll(s[k].held, ms);
        if x == s[k].held then s else if x.members == {} then s - {k} else s[k := SetOf(x)]
    case SUnionStore(dst, ks, luck) =>
      if forall k :: k in ks ==> IsSetOrAbsent(s, k) then s[dst := SetOf(StoredUnion(w, luck, s, ks))] else s
    case ZAdd(k, es) =>
      if k in s && !s[k].ZSetOf? then s
      else if k !in s && Parsed(w, es) != es then s
      else s[k := ZSetOf(ScoresAfter(w, ZSetIn(Look(s, k)), Parsed(w, es)))]
    case FlushDB(db) => map k | k in s && k.db != db :: s[k]
  }

  /** Whether the command is logged. */
  predicate IsLogged(w: World, c: Cmd, s: Store) {
    match c
    case Get(_) => false
    case Del(ks) => exists k :: k in ks && k in s
    case Rename(src, _) => src in s
    case RenameNX(src, dst) => src in s && dst !in s
    case SAdd(k, ms) => IsSetOrAbsent(s, k) && (k !in s || WithAll(s[k].held, ms) != s[k].held)
    case SRem(k, ms) => k in s && s[k].SetOf? && WithoutAll(s[k].held, ms) != s[k].held
    case SUnionStore(dst, ks, _) => forall k :: k in ks ==> IsSetOrAbsent(s, k)
    case ZAdd(k, es) => (k in s ==> s[k].ZSetOf?) && Parsed(w, es) == es
    case _ => true
  }

  /** The body takes a value for a string that is none, and panics; GETSET does so after it has written and logged. */
  predicate Panics(c: Cmd, s: Store) {
    (c.Get? || c.GetSet?) && c.key in s && !s[c.key].Str?
  }

  /** Where the command stands right before its Log access, or where it has stopped instead. */
  ghost predicate StandsAt(w: World, c: Cmd, s: Store, k: nat, l: Local, t: Store) {
    Solo(Semantics(w), c, s, k) == (l, t)
  }

  /** One more access. */
  lemma {:induction false} Advance(w: World, c: Cmd, s: Store, k: nat, l: Local, t: Store) returns (l': Local, t': Store)
    requires StandsAt(w, c, s, k, l, t) && Next(w, c, l) != Done
    ensures l' == After(w, c, l, SeenBy(Next(w, c, l), t)) && t' == Perform(Next(w, c, l), t)
    ensures StandsAt(w, c, s, k + 1, l', t')
  {
    l', t' := After(w, c, l, SeenBy(Next(w, c, l), t)), Perform(Next(w, c, l), t);
  }

  /** Log comes at the last program counter, so one look there decides everything. */
  lemma {:induction false} DecidedAt(w: World, c: Cmd, s: Store, k: nat, l: Local, t: Store)
    requires StandsAt(w, c, s, k, l, t) && (Next(w, c, l) == Log || Next(w, c, l) == Done) && k < Limit(c)
    ensures Exec(Semantics(w), c, s) == t
    ensures Logs(Semantics(w), c, s) <==> Next(w, c, l) == Log
  {
    var sem := Semantics(w);
    SemanticsWellFormed(w);
    if Next(w, c, l) == Log {
      ExecIs(sem, c, s, k + 1);
    } else {
      ExecIs(sem, c, s, k);
      forall j: nat ensures sem.next(c, Solo(sem, c, s, j).0) != Log {
        if j >= k {
          SoloStays(sem, c, s, k, j);
        } else {
          SoloCounts(sem, c, s, j);
          LogComesLate(w, c, Solo(sem, c, s, j).0);
        }
      }
    }
  }

  lemma LogComesLate(w: World, c: Cmd, l: Local)
    requires l.pc < Limit(c) - 1
    ensures Next(w, c, l) != Log
  {
  }

  // The loops of the command bodies, access by access.

  lemma {:induction false} DelSteps(w: World, ks: seq<Key>, s: Store, i: nat) returns (l: Local, t: Store)
    requires i <= |ks|
    ensures StandsAt(w, Del(ks), s, 2 * i, l, t) && t == s - Elements(ks[..i])
    ensures l.pc == 2 * i && (l.n > 0 <==> Elements(ks[..i]) * s.Keys != {})
  {
    if i == 0 {
      l, t := INIT, s;
    } else {
      l, t := DelSteps(w, ks, s, i - 1);
      l, t := DelOne(w, ks, s, i - 1, l, t);
      DelSets(ks, s, i);
    }
  }

  lemma {:induction false} DelSets(ks: seq<Key>, s: Store, i: nat)
    requires 0 < i <= |ks|
    ensures s - Elements(ks[..i]) == (s - Elements(ks[..i - 1])) - {ks[i - 1]}
    ensures Elements(ks[..i]) * s.Keys ==
              Elements(ks[..i - 1]) * s.Keys + (if ks[i - 1] in s then {ks[i - 1]} else {})
    ensures ks[i - 1] in s - Elements(ks[..i - 1]) ==> ks[i - 1] in s
    ensures ks[i - 1] in s && ks[i - 1] !in s - Elements(ks[..i - 1]) ==> ks[i - 1] in Elements(ks[..i - 1]) * s.Keys
  {
    assert ks[..i] == ks[..i - 1] + [ks[i - 1]];
    assert Elements(ks[..i]) == Elements(ks[..i - 1]) + {ks[i - 1]};
  }

  /** The two accesses of DEL for one key, and the registers behind them. */
  lemma {:induction false} DelAccess(w: World, ks: seq<Key>, l: Local, i: nat, seen: Option<Value>)
    requires i < |ks|
    ensures l.pc == 2 * i ==> Next(w, Del(ks), l) == Read(ks[i]) && After(w, Del(ks), l, seen) == l.(pc := l.pc + 1, value := seen)
    ensures l.pc == 2 * i + 1 ==>
              && Next(w, Del(ks), l) == (if l.value.Some? then Delete(ks[i]) else Skip)
              && After(w, Del(ks), l, seen) == l.(pc := l.pc + 1, n := l.n + if l.value.Some? then 1 else 0)
  {
  }

  lemma {:induction false} DelOne(w: World, ks: seq<Key>, s: Store, i: nat, l: Local, t: Store)
      returns (l': Local, t': Store)
    requires i < |ks| && StandsAt(w, Del(ks), s, 2 * i, l, t) && l.pc == 2 * i
    ensures StandsAt(w, Del(ks), s, 2 * (i + 1), l', t') && t' == t - {ks[i]}
    ensures l'.pc == 2 * (i + 1) && l'.n == l.n + (if ks[i] in t then 1 else 0)
  {
    var k := ks[i];
    DelAccess(w, ks, l, i, Look(t, k));
    var l1, t1 := Advance(w, Del(ks), s, 2 * i, l, t);
    assert t1 == t && l1 == l.(pc := 2 * i + 1, value := Look(t, k));
    DelAccess(w, ks, l1, i, None);
    l', t' := Advance(w, Del(ks), s, 2 * i + 1, l1, t1);
    if ks[i] !in t { assert t - {ks[i]} == t; }
  }

  /** A set that has changed by additions is not what it was, and additions do not bring it back. */
  predicate Beyond(x: SetState, y: SetState) {
    x.members <= y.members && (y.isIntset ==> x.isIntset)
  }

  lemma {:induction false} AddStep(x: SetState, m: bytes)
    ensures Beyond(x, With(x, m)) && (With(x, m) == x <==> Holds(x, m))
  {
    if !Holds(x, m) && With(x, m).members == x.members { assert Taken(x.isIntset, m) in x.members; }
  }

  lemma {:induction false} RemoveStep(x: SetState, m: bytes)
    ensures Without(x, m).members <= x.members && (Without(x, m) == x <==> !Holds(x, m))
    ensures Holds(x, m) ==> Without(x, m).members < x.members
  {
    if Holds(x, m) { assert Taken(x.isIntset, m) !in Without(x, m).members; }
  }

  lemma {:induction false} SAddSteps(w: World, k: Key, ms: seq<bytes>, s: Store, i: nat) returns (l: Local, t: Store)
    requires i <= |ms| && IsSetOrAbsent(s, k)
    ensures StandsAt(w, SAdd(k, ms), s, i + 1, l, t)
    ensures var x, y := SetIn(Look(s, k)), WithAll(SetIn(Look(s, k)), ms[..i]);
            && t == (if k in s then s[k := SetOf(y)] else s) && Beyond(x, y)
            && l.pc == i + 1 && l.flag == (k !in s) && SetIn(l.value) == y
            && (l.value.Some? ==> l.value.value.SetOf?) && (l.n > 0 <==> y != x)
  {
    if i == 0 {
      l, t := SAddStarts(w, k, ms, s);
      assert ms[..0] == [];
      assert k in s ==> s[k := SetOf(SetIn(Look(s, k)))] == s;
    } else {
      var x := SetIn(Look(s, k));
      var y := WithAll(x, ms[..i - 1]);
      l, t := SAddSteps(w, k, ms, s, i - 1);
      l, t := SAddStep(w, k, ms, s, i, l, t, y);
      WithOneMore(x, ms, i);
      StillBeyond(x, y, With(y, ms[i - 1]));
    }
  }

  lemma {:induction false} WithOneMore(x: SetState, ms: seq<bytes>, i: nat)
    requires 0 < i <= |ms|
    ensures WithAll(x, ms[..i]) == With(WithAll(x, ms[..i - 1]), ms[i - 1])
  {
    assert ms[..i][..i - 1] == ms[..i - 1];
  }

  lemma {:induction false} StillBeyond(x: SetState, y: SetState, z: SetState)
    requires Beyond(x, y) && Beyond(y, z)
    ensures Beyond(x, z) && (z == x <==> y == x && z == y)
  {
  }

  lemma {:induction false} SAddStarts(w: World, k: Key, ms: seq<bytes>, s: Store) returns (l: Local, t: Store)
    requires IsSetOrAbsent(s, k)
    ensures StandsAt(w, SAdd(k, ms), s, 1, l, t) && t == s && l.pc == 1 && l.flag == (k !in s) && l.n == 0
    ensures SetIn(l.value) == SetIn(Look(s, k)) && (l.value.Some? ==> l.value.value.SetOf?)
  {
    var c := SAdd(k, ms);
    assert StandsAt(w, c, s, 0, INIT, s);
    l, t := Advance(w, c, s, 0, INIT, s);
  }

  lemma {:induction false} SAddStep(w: World, k: Key, ms: seq<bytes>, s: Store, i: nat, l: Local, t: Store, y: SetState)
      returns (l': Local, t': Store)
    requires 0 < i <= |ms| && StandsAt(w, SAdd(k, ms), s, i, l, t)
    requires t == (if k in s then s[k := SetOf(y)] else s) && l.pc == i && l.flag == (k !in s)
    requires SetIn(l.value) == y && (l.value.Some? ==> l.value.value.SetOf?)
    ensures StandsAt(w, SAdd(k, ms), s, i + 1, l', t')
    ensures var y' := With(y, ms[i - 1]);
            && t' == (if k in s then s[k := SetOf(y')] else s) && l'.pc == i + 1 && l'.flag == (k !in s)
            && SetIn(l'.value) == y' && (l'.value.Some? ==> l'.value.value.SetOf?)
            && Beyond(y, y') && l'.n == l.n + (if y' == y then 0 else 1)
  {
    var c, m := SAdd(k, ms), ms[i - 1];
    AddStep(y, m);
    SAddAccess(w, k, ms, l, SeenBy(Next(w, c, l), t));
    l', t' := Advance(w, c, s, i, l, t);
  }

  /** The access of SADD for one member, and the registers behind it. */
  lemma {:induction false} SAddAccess(w: World, k: Key, ms: seq<bytes>, l: Local, seen: Option<Value>)
    requires 0 < l.pc <= |ms| && (l.value.Some? ==> l.value.value.SetOf?)
    ensures var c, x, m := SAdd(k, ms), SetIn(l.value), ms[l.pc - 1];
            && Next(w, c, l) == (if l.flag || Holds(x, m) then Skip else Write(k, SetOf(With(x, m))))
            && After(w, c, l, seen) == (if Holds(x, m) then l.(pc := l.pc + 1)
                                        else l.(pc := l.pc + 1, value := Some(SetOf(With(x, m))), n := l.n + 1))
  {
  }

  lemma {:induction false} SRemSteps(w: World, k: Key, ms: seq<bytes>, s: Store, i: nat) returns (l: Local, t: Store)
    requires i <= |ms| && k in s && s[k].SetOf?
    ensures StandsAt(w, SRem(k, ms), s, i + 1, l, t)
    ensures var x, y := s[k].held, WithoutAll(s[k].held, ms[..i]);
            && t == s[k := SetOf(y)] && y.members <= x.members
            && l.pc == i + 1 && l.value == Some(SetOf(y)) && (l.n > 0 <==> y != x) && (y != x ==> y.members < x.members)
  {
    var c := SRem(k, ms);
    if i == 0 {
      assert StandsAt(w, c, s, 0, INIT, s);
      l, t := Advance(w, c, s, 0, INIT, s);
      assert ms[..0] == [] && s[k := SetOf(s[k].held)] == s;
    } else {
      l, t := SRemSteps(w, k, ms, s, i - 1);
      var m, y := ms[i - 1], WithoutAll(s[k].held, ms[..i - 1]);
      assert ms[..i][..i - 1] == ms[..i - 1];
      RemoveStep(y, m);
      l, t := Advance(w, c, s, i, l, t);
    }
  }

  lemma {:induction false} SUnionSteps(w: World, c: Cmd, s: Store, i: nat) returns (l: Local)
    requires c.SUnionStore? && i <= |c.keys| && forall j :: 0 <= j < i ==> IsSetOrAbsent(s, c.keys[j])
    ensures StandsAt(w, c, s, i, l, s)
    ensures l.pc == i && !l.flag && SetIn(l.value) == UnionAt(w, c.luck, s, c.keys[..i])
  {
    if i == 0 {
      l := INIT;
    } else {
      l := SUnionSteps(w, c, s, i - 1);
      assert c.keys[..i][..i - 1] == c.keys[..i - 1];
      var t;
      l, t := Advance(w, c, s, i - 1, l, s);
    }
  }

  lemma {:induction false} ZAddSteps(w: World, k: Key, es: seq<(bytes, bytes)>, s: Store, i: nat)
      returns (l: Local, t: Store)
    requires i <= |es| && (k in s ==> s[k].ZSetOf?) && forall j :: 0 <= j < i ==> w.score(es[j].0).Some?
    ensures StandsAt(w, ZAdd(k, es), s, i + 1, l, t)
    ensures var z := ScoresAfter(w, ZSetIn(Look(s, k)), es[..i]);
            && t == (if k in s then s[k := ZSetOf(z)] else s)
            && l.pc == i + 1 && l.flag == (k !in s) && ZSetIn(l.value) == z
            && (l.value.Some? ==> l.value.value.ZSetOf?)
  {
    if i == 0 {
      assert StandsAt(w, ZAdd(k, es), s, 0, INIT, s);
      l, t := Advance(w, ZAdd(k, es), s, 0, INIT, s);
      assert k in s ==> s[k := s[k]] == s;
    } else {
      l, t := ZAddSteps(w, k, es, s, i - 1);
      assert es[..i][..i - 1] == es[..i - 1];
      ZAddAccess(w, k, es, l, SeenBy(Next(w, ZAdd(k, es), l), t));
      l, t := Advance(w, ZAdd(k, es), s, i, l, t);
    }
  }

  /** The access of ZADD for one entry with a good score, and the registers behind it. */
  lemma {:induction false} ZAddAccess(w: World, k: Key, es: seq<(bytes, bytes)>, l: Local, seen: Option<Value>)
    requires 0 < l.pc <= |es| && (l.value.Some? ==> l.value.value.ZSetOf?) && w.score(es[l.pc - 1].0).Some?
    ensures var c, e := ZAdd(k, es), es[l.pc - 1];
            var z := Scored(ZSetIn(l.value), e.1, w.score(e.0).value);
            && Next(w, c, l) == (if l.flag then Skip else Write(k, ZSetOf(z)))
            && After(w, c, l, seen) == l.(pc := l.pc + 1, value := Some(ZSetOf(z)))
  {
  }

  /** The access-by-access program of every command computes its plain meaning, and logs exactly when that says so. */
  lemma {:induction false} Meaning(w: World, c: Cmd, s: Store)
    ensures Exec(Semantics(w), c, s) == Effect(w, c, s)
    ensures Logs(Semantics(w), c, s) <==> IsLogged(w, c, s)
  {
    match c
    case Del(ks) => DelMeaning(w, ks, s);
    case SAdd(k, ms) => SAddMeaning(w, k, ms, s);
    case SRem(k, ms) => SRemMeaning(w, k, ms, s);
    case SUnionStore(_, _, _) => SUnionMeaning(w, c, s);
    case ZAdd(k, es) => ZAddMeaning(w, k, es, s);
    case Rename(_, _) => RenameMeaning(w, c, s);
    case RenameNX(_, _) => RenameMeaning(w, c, s);
    case _ => StraightMeaning(w, c, s);
  }

  lemma {:induction false} StraightMeaning(w: World, c: Cmd, s: Store)
    requires !c.Del? && !c.SAdd? && !c.SRem? && !c.SUnionStore? && !c.ZAdd? && !c.Rename? && !c.RenameNX?
    ensures Exec(Semantics(w), c, s) == Effect(w, c, s)
    ensures Logs(Semantics(w), c, s) <==> IsLogged(w, c, s)
  {
    assert StandsAt(w, c, s, 0, INIT, s);
    if c.Get? {
      GetMeaning(w, c, s);
    } else {
      var l, t := Advance(w, c, s, 0, INIT, s);
      if c.SetNX? || c.GetSet? {
        l, t := Advance(w, c, s, 1, l, t);
        DecidedAt(w, c, s, 2, l, t);
      } else {
        DecidedAt(w, c, s, 1, l, t);
      }
    }
  }

  /** GET reads and is done: it never logs. */
  lemma {:induction false} GetMeaning(w: World, c: Cmd, s: Store)
    requires c.Get?
    ensures Exec(Semantics(w), c, s) == s && !Logs(Semantics(w), c, s)
  {
    var sem := Semantics(w);
    assert Solo(sem, c, s, 0) == (INIT, s);
    forall j: nat ensures sem.next(c, Solo(sem, c, s, j).0) != Log { }
  }

  lemma {:induction false} RenameMeaning(w: World, c: Cmd, s: Store)
    requires c.Rename? || c.RenameNX?
    ensures Exec(Semantics(w), c, s) == Effect(w, c, s)
    ensures Logs(Semantics(w), c, s) <==> IsLogged(w, c, s)
  {
    assert StandsAt(w, c, s, 0, INIT, s);
    var l, t := Advance(w, c, s, 0, INIT, s);
    if c.src !in s {
      DecidedAt(w, c, s, 1, l, t);
    } else if c.Rename? {
      l, t := Advance(w, c, s, 1, l, t);
      l, t := Advance(w, c, s, 2, l, t);
      DecidedAt(w, c, s, 3, l, t);
    } else {
      l, t := Advance(w, c, s, 1, l, t);
      if c.dst in s {
        DecidedAt(w, c, s, 2, l, t);
      } else {
        l, t := Advance(w, c, s, 2, l, t);
        l, t := Advance(w, c, s, 3, l, t);
        DecidedAt(w, c, s, 4, l, t);
      }
    }
  }

  lemma {:induction false} DelMeaning(w: World, ks: seq<Key>, s: Store)
    ensures Exec(Semantics(w), Del(ks), s) == Effect(w, Del(ks), s)
    ensures Logs(Semantics(w), Del(ks), s) <==> IsLogged(w, Del(ks), s)
  {
    var l, t := DelSteps(w, ks, s, |ks|);
    assert ks[..|ks|] == ks;
    DecidedAt(w, Del(ks), s, 2 * |ks|, l, t);
    if l.n > 0 {
      var k :| k in Elements(ks) * s.Keys;
      assert k in ks && k in s;
    } else {
      forall k | k in ks ensures k !in s { assert k in Elements(ks) * s.Keys <==> k in s; }
    }
  }

  lemma {:induction false} SAddMeaning(w: World, k: Key, ms: seq<bytes>, s: Store)
    ensures Exec(Semantics(w), SAdd(k, ms), s) == Effect(w, SAdd(k, ms), s)
    ensures Logs(Semantics(w), SAdd(k, ms), s) <==> IsLogged(w, SAdd(k, ms), s)
  {
    var c := SAdd(k, ms);
    if IsSetOrAbsent(s, k) {
      var l, t := SAddSteps(w, k, ms, s, |ms|);
      assert ms[..|ms|] == ms;
      if l.flag || l.n > 0 {
        l, t := Advance(w, c, s, |ms| + 1, l, t);
        DecidedAt(w, c, s, |ms| + 2, l, t);
      } else {
        assert s[k := SetOf(s[k].held)] == s;
        DecidedAt(w, c, s, |ms| + 1, l, t);
      }
    } else {
      assert StandsAt(w, c, s, 0, INIT, s);
      var l, t := Advance(w, c, s, 0, INIT, s);
      DecidedAt(w, c, s, 1, l, t);
    }
  }

  lemma {:induction false} SRemOfSetMeaning(w: World, k: Key, ms: seq<bytes>, s: Store)
    requires k in s && s[k].SetOf?
    ensures Exec(Semantics(w), SRem(k, ms), s) == Effect(w, SRem(k, ms), s)
    ensures Logs(Semantics(w), SRem(k, ms), s) <==> IsLogged(w, SRem(k, ms), s)
  {
    var c := SRem(k, ms);
    var l, t := SRemSteps(w, k, ms, s, |ms|);
    assert ms[..|ms|] == ms;
    if l.n > 0 {
      l, t := Advance(w, c, s, |ms| + 1, l, t);
      DecidedAt(w, c, s, |ms| + 2, l, t);
    } else {
      assert s[k := SetOf(s[k].held)] == s;
      DecidedAt(w, c, s, |ms| + 1, l, t);
    }
  }

  lemma {:induction false} SRemMeaning(w: World, k: Key, ms: seq<bytes>, s: Store)
    ensures Exec(Semantics(w), SRem(k, ms), s) == Effect(w, SRem(k, ms), s)
    ensures Logs(Semantics(w), SRem(k, ms), s) <==> IsLogged(w, SRem(k, ms), s)
  {
    var c := SRem(k, ms);
    if k in s && s[k].SetOf? {
      SRemOfSetMeaning(w, k, ms, s);
    } else {
      assert StandsAt(w, c, s, 0, INIT, s);
      var l, t := Advance(w, c, s, 0, INIT, s);
      DecidedAt(w, c, s, 1, l, t);
    }
  }

  lemma {:induction false} SUnionMeaning(w: World, c: Cmd, s: Store)
    requires c.SUnionStore?
    ensures Exec(Semantics(w), c, s) == Effect(w, c, s)
    ensures Logs(Semantics(w), c, s) <==> IsLogged(w, c, s)
  {
    if forall k :: k in c.keys ==> IsSetOrAbsent(s, k) {
      UnionOfSetsMeaning(w, c, s);
    } else {
      var i := FirstWrong(c.keys, s);
      UnionFailsMeaning(w, c, s, i);
    }
  }

  lemma {:induction false} UnionOfSetsMeaning(w: World, c: Cmd, s: Store)
    requires c.SUnionStore? && forall k :: k in c.keys ==> IsSetOrAbsent(s, k)
    ensures Exec(Semantics(w), c, s) == Effect(w, c, s)
    ensures Logs(Semantics(w), c, s) <==> IsLogged(w, c, s)
  {
    var ks := c.keys;
    var l := SUnionSteps(w, c, s, |ks|);
    assert ks[..|ks|] == ks;
    var l', t := Advance(w, c, s, |ks|, l, s);
    DecidedAt(w, c, s, |ks| + 1, l', t);
  }

  lemma {:induction false} UnionFailsMeaning(w: World, c: Cmd, s: Store, i: nat)
    requires c.SUnionStore? && i < |c.keys| && !IsSetOrAbsent(s, c.keys[i]) && forall j :: 0 <= j < i ==> IsSetOrAbsent(s, c.keys[j])
    ensures Exec(Semantics(w), c, s) == Effect(w, c, s)
    ensures Logs(Semantics(w), c, s) <==> IsLogged(w, c, s)
  {
    var l := SUnionSteps(w, c, s, i);
    var l', t := Advance(w, c, s, i, l, s);
    DecidedAt(w, c, s, i + 1, l', t);
    assert c.keys[i] in c.keys;
  }

  lemma {:induction false} FirstWrong(ks: seq<Key>, s: Store) returns (i: nat)
    requires exists k :: k in ks && !IsSetOrAbsent(s, k)
    ensures i < |ks| && !IsSetOrAbsent(s, ks[i]) && forall j :: 0 <= j < i ==> IsSetOrAbsent(s, ks[j])
  {
    i := 0;
    while i < |ks| && IsSetOrAbsent(s, ks[i])
      invariant i <= |ks| && forall j :: 0 <= j < i ==> IsSetOrAbsent(s, ks[j])
    {
      i := i + 1;
    }
  }

  lemma {:induction false} ZAddMeaning(w: World, k: Key, es: seq<(bytes, bytes)>, s: Store)
    ensures Exec(Semantics(w), ZAdd(k, es), s) == Effect(w, ZAdd(k, es), s)
    ensures Logs(Semantics(w), ZAdd(k, es), s) <==> IsLogged(w, ZAdd(k, es), s)
  {
    if k in s && !s[k].ZSetOf? {
      var c := ZAdd(k, es);
      assert StandsAt(w, c, s, 0, INIT, s);
      var l, t := Advance(w, c, s, 0, INIT, s);
      DecidedAt(w, c, s, 1, l, t);
    } else {
      ZAddRuns(w, k, es, s);
    }
  }

  lemma {:induction false} ZAddRuns(w: World, k: Key, es: seq<(bytes, bytes)>, s: Store)
    requires k in s ==> s[k].ZSetOf?
    ensures var z := ScoresAfter(w, ZSetIn(Look(s, k)), Parsed(w, es));
            Exec(Semantics(w), ZAdd(k, es), s) == if k !in s && Parsed(w, es) != es then s else s[k := ZSetOf(z)]
    ensures Logs(Semantics(w), ZAdd(k, es), s) <==> Parsed(w, es) == es
  {
    var c, p := ZAdd(k, es), Parsed(w, es);
    assert es[..|p|] == p;
    var l, t := ZAddSteps(w, k, es, s, |p|);
    var z := ScoresAfter(w, ZSetIn(Look(s, k)), p);
    if p == es {
      ZAddFinishes(w, k, es, s, l, t, z);
    } else {
      ZAddBreaksOff(w, k, es, s, |p|, l, t);
    }
  }

  lemma {:induction false} ZAddFinishes(
      w: World, k: Key, es: seq<(bytes, bytes)>, s: Store, l: Local, t: Store, z: ZState)
    requires StandsAt(w, ZAdd(k, es), s, |es| + 1, l, t) && l.pc == |es| + 1
    requires t == (if k in s then s[k := ZSetOf(z)] else s) && ZSetIn(l.value) == z && (l.value.Some? ==> l.value.value.ZSetOf?)
    ensures Exec(Semantics(w), ZAdd(k, es), s) == s[k := ZSetOf(z)] && Logs(Semantics(w), ZAdd(k, es), s)
  {
    var l', t' := Advance(w, ZAdd(k, es), s, |es| + 1, l, t);
    DecidedAt(w, ZAdd(k, es), s, |es| + 2, l', t');
  }

  lemma {:induction false} ZAddBreaksOff(
      w: World, k: Key, es: seq<(bytes, bytes)>, s: Store, n: nat, l: Local, t: Store)
    requires n < |es| && StandsAt(w, ZAdd(k, es), s, n + 1, l, t) && l.pc == n + 1 && w.score(es[n].0).None?
    requires l.value.Some? ==> l.value.value.ZSetOf?
    ensures Exec(Semantics(w), ZAdd(k, es), s) == t && !Logs(Semantics(w), ZAdd(k, es), s)
  {
    DecidedAt(w, ZAdd(k, es), s, n + 1, l, t);
  }

  // ----- which commands log whatever they change -----

  /** A score that does not parse comes first or not at all. */
  predicate NoLateError(w: World, c: Cmd) {
    c.ZAdd? ==> forall i :: 0 <= i < |c.entries| && w.score(c.entries[i].0).None? ==> w.score(c.entries[0].0).None?
  }

  /** A ZADD that fails midway on an existing sorted set has changed it without logging; nothing else does that. */
  lemma {:induction false} QuietExactly(w: World, c: Cmd)
    ensures Quiet(Semantics(w), c) <==> NoLateError(w, c)
  {
    var sem := Semantics(w);
    if NoLateError(w, c) {
      forall s: Store | !Logs(sem, c, s) ensures Exec(sem, c, s) == s {
        Meaning(w, c, s);
        UnloggedEffect(w, c, s);
      }
    } else {
      LateErrorShows(w, c);
    }
  }

  lemma {:induction false} LateErrorShows(w: World, c: Cmd)
    requires !NoLateError(w, c)
    ensures !Quiet(Semantics(w), c)
  {
    var s: Store := map[c.key := ZSetOf(NO_SCORES)];
    var p := Parsed(w, c.entries);
    assert p != [] && p != c.entries;
    ScoresGrow(w, NO_SCORES, p);
    Meaning(w, c, s);
    assert Effect(w, c, s)[c.key] != s[c.key];
  }

  lemma {:induction false} ScoresGrow(w: World, z: ZState, es: seq<(bytes, bytes)>)
    requires es != [] && forall i :: 0 <= i < |es| ==> w.score(es[i].0).Some?
    ensures ScoresAfter(w, z, es) != NO_SCORES
  {
    assert es[|es| - 1].1 in ScoresAfter(w, z, es).scores;
  }

  lemma {:induction false} UnloggedEffect(w: World, c: Cmd, s: Store)
    requires NoLateError(w, c) && !IsLogged(w, c, s)
    ensures Effect(w, c, s) == s
  {
    match c
    case Del(ks) => assert s - Elements(ks) == s;
    case SAdd(k, ms) =>
      if IsSetOrAbsent(s, k) {
        assert s[k := SetOf(s[k].held)] == s;
      }
    case ZAdd(k, es) =>
      if k in s && s[k].ZSetOf? {
        assert Parsed(w, es) == [];
        assert s[k := ZSetOf(s[k].ranked)] == s;
      }
    case _ =>
  }

  // ----- which SUNIONSTOREs come out the same whatever the order -----

  function SourceSets(s: Store, ks: seq<Key>): (r: seq<set<bytes>>)
    ensures |r| == |ks| && forall i :: 0 <= i < |r| ==> r[i] == SetIn(Look(s, ks[i])).members
  {
    seq(|ks|, i requires 0 <= i < |ks| => SetIn(Look(s, ks[i])).members)
  }

  /** The orders in which one call goes through its sources. */
  function WalksOf(w: World, luck: nat, sources: seq<set<bytes>>): (r: seq<seq<bytes>>)
    ensures |r| == |sources| && forall i :: 0 <= i < |r| ==> r[i] == w.walk(luck, i, sources[i])
  {
    seq(|sources|, i requires 0 <= i < |sources| => w.walk(luck, i, sources[i]))
  }

  lemma {:induction false} UnionAtIs(w: World, luck: nat, s: Store, ks: seq<Key>)
    ensures UnionAt(w, luck, s, ks) == Poured(Joined(WalksOf(w, luck, SourceSets(s, ks))))
  {
    if ks != [] {
      var n := |ks| - 1;
      UnionAtIs(w, luck, s, ks[..n]);
      var orders := WalksOf(w, luck, SourceSets(s, ks));
      assert orders[..n] == WalksOf(w, luck, SourceSets(s, ks[..n]));
      WithAllConcat(NO_MEMBERS, Joined(orders[..n]), orders[n]);
    }
  }

  /** What a fair world stores is a possible outcome. */
  lemma {:induction false} StoredUnionIsPossible(w: World, luck: nat, s: Store, ks: seq<Key>)
    requires Fair(w)
    ensures CanStore(SourceSets(s, ks), StoredUnion(w, luck, s, ks))
  {
    var sources := SourceSets(s, ks);
    var orders := WalksOf(w, luck, sources);
    UnionAtIs(w, luck, s, ks);
    var last := w.walk(luck, |ks|, Poured(Joined(orders)).members);
    assert Stores(sources, orders, last, StoredUnion(w, luck, s, ks));
  }

  /** Every possible outcome is what some fair world stores. */
  lemma {:induction false} SomeWorldStores(w: World, luck: nat, s: Store, ks: seq<Key>, x: SetState) returns (w': World)
    requires CanStore(SourceSets(s, ks), x)
    ensures Fair(w') && w'.score == w.score && StoredUnion(w', luck, s, ks) == x
  {
    var sources := SourceSets(s, ks);
    var orders, last :| Stores(sources, orders, last, x);
    w' := WorldFor(w, sources, orders, Poured(Joined(orders)).members, last);
    UnionAtIs(w', luck, s, ks);
    assert WalksOf(w', luck, sources) == orders;
  }

  /** A world that goes through the sources in the given orders, and through `r` in the order `last`. */
  lemma {:induction false} WorldFor(w: World, sources: seq<set<bytes>>, orders: seq<seq<bytes>>, r: set<bytes>, last: seq<bytes>)
      returns (w': World)
    requires Visits(orders, sources) && Lists(last, r)
    ensures Fair(w') && w'.score == w.score
    ensures forall call: nat, i :: 0 <= i < |orders| ==> w'.walk(call, i, sources[i]) == orders[i]
    ensures forall call: nat :: w'.walk(call, |orders|, r) == last
  {
    var walk := (call: nat, i: nat, m: set<bytes>) =>
      if i < |orders| && m == sources[i] then orders[i] else if i == |orders| && m == r then last else Listing(m);
    w' := w.(walk := walk);
    forall call: nat, i: nat, m: set<bytes> ensures Lists(w'.walk(call, i, m), m) {
      if i < |orders| && m == sources[i] {
        assert Lists(orders[i], sources[i]) && w'.walk(call, i, m) == orders[i];
      } else if i == |orders| && m == r {
        assert w'.walk(call, i, m) == last;
      } else {
        assert Lists(Listing(m), m) && w'.walk(call, i, m) == Listing(m);
      }
    }
  }

  /** SUNIONSTORE stores the same in every fair world exactly when its sources are settled. */
  lemma {:induction false} SameUnionExactly(w: World, s: Store, ks: seq<Key>)
    requires Fair(w)
    ensures (forall w', luck, luck' :: Fair(w') ==> StoredUnion(w', luck', s, ks) == StoredUnion(w, luck, s, ks))
            <==> Settled(SourceSets(s, ks))
  {
    var sources := SourceSets(s, ks);
    OneOutcomeExactly(sources);
    if Settled(sources) {
      forall w', luck, luck' | Fair(w') ensures StoredUnion(w', luck', s, ks) == StoredUnion(w, luck, s, ks) {
        StoredUnionIsPossible(w', luck', s, ks);
        StoredUnionIsPossible(w, luck, s, ks);
      }
    } else {
      var x, y :| CanStore(sources, x) && CanStore(sources, y) && x != y;
      var a := SomeWorldStores(w, 0, s, ks, x);
      var b := SomeWorldStores(w, 0, s, ks, y);
      assert StoredUnion(a, 0, s, ks) != StoredUnion(w, 0, s, ks) || StoredUnion(b, 0, s, ks) != StoredUnion(w, 0, s, ks);
    }
  }

  /** With members that are never merged, SUNIONSTORE stores the union. */
  lemma {:induction false} FaithfulUnion(w: World, luck: nat, s: Store, ks: seq<Key>)
    requires Fair(w) && AllFaithful(UnionOf(SourceSets(s, ks)))
    ensures StoredUnion(w, luck, s, ks) == Fresh(UnionOf(SourceSets(s, ks)))
  {
    var sources := SourceSets(s, ks);
    StoredUnionIsPossible(w, luck, s, ks);
    FaithfulIsSettled(sources);
    var orders, last :| Stores(sources, orders, last, StoredUnion(w, luck, s, ks));
    SettledStores(sources, orders, last, StoredUnion(w, luck, s, ks));
  }
}
