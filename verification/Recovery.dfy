/**
 From client commands to the contents after a restart: commands run concurrently under their locks, their log goes
 to the append-only file as bytes, and the file is parsed and run again.
 */
module Recovery {
  import opened Bytes
  import opened Collections
  import opened Decimal
  import opened Values
  import opened Pouring
  import Resp
  import RoundTrip
  import opened Programs
  import LP = LockProtocol
  import SerialOrder
  import opened Commands
  import opened Aof
  import opened Wire
  import TornLog

  // ----- running the lines of a file -----

  /** What AddAof queues for a logged command. */
  function EntryOf(c: Cmd): Entry {
    Entry(DbOf(c), Encode(c))
  }

  function Entries(log: seq<Cmd>): (ps: seq<Entry>)
    ensures |ps| == |log| && forall i :: 0 <= i < |ps| ==> ps[i] == EntryOf(log[i])
  {
    seq(|log|, i requires 0 <= i < |log| => EntryOf(log[i]))
  }

  function DecodeEntry(e: Entry, luck: nat): Option<Cmd> {
    if e.line == [] then None else Decode(e.db, e.line, luck)
  }

  /** The contents of an empty server after it has run the lines one at a time; lines that are no command change nothing. */
  function RunEntries(w: World, ps: seq<Entry>): Store {
    if ps == [] then map[]
    else
      var n := |ps| - 1;
      var before := RunEntries(w, ps[..n]);
      match DecodeEntry(ps[n], n)
      case None => before
      case Some(c) => Effect(w, c, before)
  }

  predicate FailsAfter(w: World, run: seq<Entry>, e: Entry) {
    match DecodeEntry(e, |run|)
    case None => false
    case Some(c) => Panics(c, RunEntries(w, run))
  }

  function ServerOf(w: World, dbs: nat): Server {
    Server(dbs, (run, e) => FailsAfter(w, run, e))
  }

  /** The contents of a fresh server after it has loaded the file; None when loading does not get through. */
  function Rebuild(w: World, file: bytes, dbs: nat): Option<Store> {
    match ReplayFile(file, ServerOf(w, dbs))
    case Some(Replay(run, _, _)) => Some(RunEntries(w, run))
    case _ => None
  }

  /** The bytes of a log. */
  function LogFile(log: seq<Cmd>): bytes {
    FileOf(Lines(0, Entries(log)))
  }

  // ----- which logs load -----

  /** The command came from a line for database `db`, and what it logs can be read back. */
  predicate From(c: Cmd, db: nat, line: seq<bytes>, luck: nat) {
    line != [] && Decode(db, line, luck) == Some(c) && RoundTrip.Readable(Resp.Strings(Encode(c)))
  }

  ghost predicate Logged(c: Cmd, dbs: nat) {
    exists db: nat, line, luck :: db < dbs && From(c, db, line, luck)
  }

  lemma {:induction false} LoggedEntry(w: World, c: Cmd, dbs: nat, luck: nat)
    requires dbs <= MAX_INT64 && Logged(c, dbs)
    ensures DecodeEntry(EntryOf(c), luck) == Some(WithLuck(c, luck))
    ensures Loggable(EntryOf(c), ServerOf(w, dbs)) && ReadableEntry(EntryOf(c))
  {
    var db: nat, line, was :| db < dbs && From(c, db, line, was);
    LoggedLineIsTheCommand(db, line, was, luck);
    NeverSelect(KindOf(c));
  }

  ghost predicate AllLogged(log: seq<Cmd>, dbs: nat) {
    dbs <= MAX_INT64 && forall i :: 0 <= i < |log| ==> Logged(log[i], dbs)
  }

  lemma {:induction false} LoggedEntries(w: World, log: seq<Cmd>, dbs: nat)
    requires AllLogged(log, dbs)
    ensures forall i :: 0 <= i < |log| ==> Loggable(Entries(log)[i], ServerOf(w, dbs)) && ReadableEntry(Entries(log)[i])
  {
    forall i | 0 <= i < |log| ensures Loggable(Entries(log)[i], ServerOf(w, dbs)) && ReadableEntry(Entries(log)[i]) {
      LoggedEntry(w, log[i], dbs, 0);
    }
  }

  /** No command of the log panics in its turn when the log is run again. */
  predicate NoPanic(w: World, log: seq<Cmd>) {
    forall i :: 0 <= i < |log| ==> !Panics(log[i], RunEntries(w, Entries(log[..i])))
  }

  /** That is, no GETSET meets a value that is no string, and neither does a GET, which no log holds. */
  lemma {:induction false} NoPanicExactly(w: World, log: seq<Cmd>)
    ensures NoPanic(w, log) <==>
              forall i :: 0 <= i < |log| && (log[i].GetSet? || log[i].Get?) ==>
                IsTextOrAbsent(RunEntries(w, Entries(log[..i])), log[i].key)
  {
    forall i | 0 <= i < |log| {
      PanicsExactly(log[i], RunEntries(w, Entries(log[..i])));
    }
  }

  predicate IsTextOrAbsent(s: Store, k: Key) {
    k in s ==> s[k].Str?
  }

  lemma {:induction false} PanicsExactly(c: Cmd, s: Store)
    ensures Panics(c, s) <==> (c.GetSet? || c.Get?) && !IsTextOrAbsent(s, c.key)
  {
  }

  lemma {:induction false} FailsExactly(w: World, log: seq<Cmd>, i: nat, dbs: nat)
    requires AllLogged(log, dbs) && i < |log|
    ensures var ps := Entries(log);
            ServerOf(w, dbs).fails([] + ps[..i], ps[i]) <==> Panics(log[i], RunEntries(w, Entries(log[..i])))
  {
    var ps := Entries(log);
    assert [] + ps[..i] == Entries(log[..i]);
    LoggedEntry(w, log[i], dbs, i);
  }

  lemma {:induction false} NoPanicIsSmooth(w: World, log: seq<Cmd>, dbs: nat)
    requires AllLogged(log, dbs)
    ensures NoPanic(w, log) <==> Smooth(ServerOf(w, dbs), [], Entries(log))
  {
    forall i | 0 <= i < |log|
      ensures ServerOf(w, dbs).fails([] + Entries(log)[..i], Entries(log)[i]) <==> Panics(log[i], RunEntries(w, Entries(log[..i])))
    {
      FailsExactly(w, log, i, dbs);
    }
  }

  /**
   A log loads exactly when none of its commands panics on what the commands before it have left: no GETSET meets a
   value that is no string.
   */
  lemma {:induction false} LoadsExactly(w: World, log: seq<Cmd>, dbs: nat)
    requires AllLogged(log, dbs)
    ensures Rebuild(w, LogFile(log), dbs) == if NoPanic(w, log) then Some(RunEntries(w, Entries(log))) else None
  {
    LoggedEntries(w, log, dbs);
    NoPanicIsSmooth(w, log, dbs);
    LogReplays(Entries(log), ServerOf(w, dbs));
  }

  /** SADD and then GETSET of the same key: both are logged, and the server that loads the log does not start. */
  lemma {:induction false} GetSetOfASetCrashes(w: World, k: Key, m: bytes, text: bytes, dbs: nat)
    requires AllLogged([SAdd(k, [m]), GetSet(k, text)], dbs)
    ensures var a, b := SAdd(k, [m]), GetSet(k, text);
            && IsLogged(w, a, map[]) && IsLogged(w, b, Effect(w, a, map[]))
            && ReplayFile(LogFile([a, b]), ServerOf(w, dbs)) == Some(Crashed) && Rebuild(w, LogFile([a, b]), dbs) == None
  {
    var a, b := SAdd(k, [m]), GetSet(k, text);
    var log := [a, b];
    assert log[..1] == [a] && Entries([a])[..0] == [];
    LoggedEntry(w, log[0], dbs, 0);
    assert RunEntries(w, []) == map[];
    assert RunEntries(w, Entries([a])) == Effect(w, a, map[]);
    assert Panics(log[1], RunEntries(w, Entries(log[..1])));
    LoggedEntries(w, log, dbs);
    NoPanicIsSmooth(w, log, dbs);
    LogReplays(Entries(log), ServerOf(w, dbs));
  }

  // ----- which logs are run again with the same result -----

  /** The command keeps its footprint, logs what it changes, and its line can be read back. */
  ghost predicate Recoverable(w: World, c: Cmd, dbs: nat) {
    KeepsFootprint(w, c) && NoLateError(w, c) && Logged(c, dbs)
  }

  /** A log of recoverable commands, which GET is never part of. */
  ghost predicate RecoverableLog(w: World, log: seq<Cmd>, dbs: nat) {
    dbs <= MAX_INT64 && forall i :: 0 <= i < |log| ==> Recoverable(w, log[i], dbs) && !log[i].Get?
  }

  /** A SUNIONSTORE that runs on this store has one possible outcome. */
  predicate SettledAt(s: Store, c: Cmd) {
    c.SUnionStore? && (forall k :: k in c.keys ==> IsSetOrAbsent(s, k)) ==> Settled(SourceSets(s, c.keys))
  }

  /** What the first commands of the log stand for. */
  ghost function After(w: World, log: seq<Cmd>, i: nat): Store
    requires i <= |log|
  {
    Serial(Semantics(w), map[], log[..i])
  }

  ghost predicate SettledIn(w: World, log: seq<Cmd>, i: nat)
    requires i < |log|
  {
    SettledAt(After(w, log, i), log[i])
  }

  ghost predicate SettledLog(w: World, log: seq<Cmd>) {
    forall i :: 0 <= i < |log| ==> SettledIn(w, log, i)
  }

  /** Servers that go through sets in their own orders but read scores alike. */
  ghost predicate Alike(w: World, w': World) {
    Fair(w) && Fair(w') && w'.score == w.score
  }

  lemma {:induction false} SameParsed(w: World, w': World, es: seq<(bytes, bytes)>)
    requires w'.score == w.score
    ensures Parsed(w', es) == Parsed(w, es)
  {
    if es != [] { SameParsed(w, w', es[1..]); }
  }

  lemma {:induction false} SameScores(w: World, w': World, z: ZState, es: seq<(bytes, bytes)>)
    requires w'.score == w.score && forall i :: 0 <= i < |es| ==> w.score(es[i].0).Some?
    ensures ScoresAfter(w', z, es) == ScoresAfter(w, z, es)
  {
    if es != [] { SameScores(w, w', z, es[..|es| - 1]); }
  }

  lemma {:induction false} SameUnionEffect(w: World, w': World, c: Cmd, luck: nat, s: Store)
    requires Alike(w, w') && c.SUnionStore? && SettledAt(s, c)
    ensures Effect(w', WithLuck(c, luck), s) == Effect(w, c, s)
  {
    if forall k :: k in c.keys ==> IsSetOrAbsent(s, k) { SameUnionExactly(w, s, c.keys); }
  }

  lemma {:induction false} SameScoreEffect(w: World, w': World, c: Cmd, luck: nat, s: Store)
    requires w'.score == w.score && c.ZAdd?
    ensures Effect(w', WithLuck(c, luck), s) == Effect(w, c, s)
  {
    SameParsed(w, w', c.entries);
    SameScores(w, w', ZSetIn(Look(s, c.key)), Parsed(w, c.entries));
  }

  /** A settled command has the same effect in every fair world, on every occasion. */
  lemma {:induction false} SameEffect(w: World, w': World, c: Cmd, luck: nat, s: Store)
    requires Alike(w, w') && SettledAt(s, c)
    ensures Effect(w', WithLuck(c, luck), s) == Effect(w, c, s)
  {
    match c
    case SUnionStore(_, _, _) => SameUnionEffect(w, w', c, luck, s);
    case ZAdd(_, _) => SameScoreEffect(w, w', c, luck, s);
    case _ =>
  }

  /** One of two occasions on which an unsettled SUNIONSTORE comes out differently. */
  lemma {:induction false} OtherEffect(w: World, c: Cmd, luck: nat, s: Store) returns (w': World)
    requires Fair(w) && !SettledAt(s, c)
    ensures Alike(w, w') && Effect(w', WithLuck(c, luck), s) != Effect(w, c, s)
  {
    var sources := SourceSets(s, c.keys);
    OneOutcomeExactly(sources);
    var x, y :| CanStore(sources, x) && CanStore(sources, y) && x != y;
    var z := if x == StoredUnion(w, c.luck, s, c.keys) then y else x;
    w' := SomeWorldStores(w, luck, s, c.keys, z);
    UnionEffect(w', c, luck, s);
    UnionEffect(w, c, c.luck, s);
  }

  lemma {:induction false} UnionEffect(w: World, c: Cmd, luck: nat, s: Store)
    requires c.SUnionStore? && forall k :: k in c.keys ==> IsSetOrAbsent(s, k)
    ensures Effect(w, WithLuck(c, luck), s) == s[c.dst := SetOf(StoredUnion(w, luck, s, c.keys))] && WithLuck(c, c.luck) == c
    ensures Effect(w, WithLuck(c, luck), s)[c.dst] == SetOf(StoredUnion(w, luck, s, c.keys))
  {
  }

  lemma {:induction false} SerialSnoc(w: World, log: seq<Cmd>, n: nat)
    requires n < |log|
    ensures After(w, log, n + 1) == Effect(w, log[n], After(w, log, n))
  {
    assert log[..n + 1][..n] == log[..n];
    Meaning(w, log[n], After(w, log, n));
  }

  lemma {:induction false} RunSnoc(w: World, log: seq<Cmd>, n: nat, dbs: nat)
    requires n < |log| && AllLogged(log, dbs)
    ensures RunEntries(w, Entries(log[..n + 1])) == Effect(w, WithLuck(log[n], n), RunEntries(w, Entries(log[..n])))
  {
    assert Entries(log[..n + 1])[..n] == Entries(log[..n]);
    LoggedEntry(w, log[n], dbs, n);
  }

  /** Running the entries of a settled log is running its commands one at a time, whatever the orders. */
  lemma {:induction false} EntriesRunTheLog(w: World, w': World, log: seq<Cmd>, n: nat, dbs: nat)
    requires Alike(w, w') && AllLogged(log, dbs) && n <= |log|
    requires forall i :: 0 <= i < n ==> SettledIn(w, log, i)
    ensures RunEntries(w', Entries(log[..n])) == After(w, log, n)
  {
    if n > 0 {
      EntriesRunTheLog(w, w', log, n - 1, dbs);
      OneMoreEntry(w, w', log, n - 1, dbs);
    } else {
      assert log[..0] == [] && Entries(log[..0]) == [];
    }
  }

  lemma {:induction false} OneMoreEntry(w: World, w': World, log: seq<Cmd>, n: nat, dbs: nat)
    requires Alike(w, w') && AllLogged(log, dbs) && n < |log| && SettledIn(w, log, n)
    requires RunEntries(w', Entries(log[..n])) == After(w, log, n)
    ensures RunEntries(w', Entries(log[..n + 1])) == After(w, log, n + 1)
  {
    SerialSnoc(w, log, n);
    RunSnoc(w', log, n, dbs);
    SameEffect(w, w', log[n], n, After(w, log, n));
  }

  lemma {:induction false} RecoverableIsLogged(w: World, log: seq<Cmd>, dbs: nat)
    requires RecoverableLog(w, log, dbs)
    ensures AllLogged(log, dbs) && forall w' :: NoPanic(w', log)
  {
    forall i | 0 <= i < |log| ensures Logged(log[i], dbs) && !log[i].Get? && !log[i].GetSet? {
      assert Recoverable(w, log[i], dbs);
    }
  }

  lemma {:induction false} SettledLogRebuilds(w: World, w': World, log: seq<Cmd>, dbs: nat)
    requires Alike(w, w') && RecoverableLog(w, log, dbs) && SettledLog(w, log)
    ensures Rebuild(w', LogFile(log), dbs) == Some(Serial(Semantics(w), map[], log))
  {
    RecoverableIsLogged(w, log, dbs);
    LoadsExactly(w', log, dbs);
    EntriesRunTheLog(w, w', log, |log|, dbs);
    assert log[..|log|] == log;
  }

  /** Every first part of the log rebuilds what it stands for, on every server. */
  ghost predicate AlwaysRebuilds(w: World, log: seq<Cmd>, dbs: nat) {
    forall w', n :: Alike(w, w') && 0 <= n <= |log| ==> Rebuilds(w, w', log, n, dbs)
  }

  ghost predicate Rebuilds(w: World, w': World, log: seq<Cmd>, n: nat, dbs: nat)
    requires n <= |log|
  {
    Rebuild(w', LogFile(log[..n]), dbs) == Some(After(w, log, n))
  }

  lemma {:induction false} PrefixRebuilds(w: World, w': World, log: seq<Cmd>, n: nat, dbs: nat)
    requires Alike(w, w') && RecoverableLog(w, log, dbs) && n <= |log|
    ensures Rebuild(w', LogFile(log[..n]), dbs) == Some(RunEntries(w', Entries(log[..n])))
  {
    RecoverableIsLogged(w, log[..n], dbs);
    LoadsExactly(w', log[..n], dbs);
  }

  lemma {:induction false} SettledAlwaysRebuilds(w: World, w': World, log: seq<Cmd>, n: nat, dbs: nat)
    requires Alike(w, w') && RecoverableLog(w, log, dbs) && SettledLog(w, log) && n <= |log|
    ensures Rebuilds(w, w', log, n, dbs)
  {
    RecoverableIsLogged(w, log, dbs);
    PrefixRebuilds(w, w', log, n, dbs);
    EntriesRunTheLog(w, w', log, n, dbs);
  }

  /** The first SUNIONSTORE with unsettled sources comes out differently on some server. */
  lemma {:induction false} UnsettledFails(w: World, log: seq<Cmd>, i: nat, dbs: nat) returns (w': World)
    requires Fair(w) && RecoverableLog(w, log, dbs) && i < |log| && !SettledIn(w, log, i)
    requires forall j :: 0 <= j < i ==> SettledIn(w, log, j)
    ensures Alike(w, w') && !Rebuilds(w, w', log, i + 1, dbs)
  {
    RecoverableIsLogged(w, log, dbs);
    w' := OtherOutcome(w, log, i, dbs);
    PrefixRebuilds(w, w', log, i + 1, dbs);
  }

  lemma {:induction false} OtherOutcome(w: World, log: seq<Cmd>, i: nat, dbs: nat) returns (w': World)
    requires Fair(w) && AllLogged(log, dbs) && i < |log| && !SettledIn(w, log, i)
    requires forall j :: 0 <= j < i ==> SettledIn(w, log, j)
    ensures Alike(w, w') && RunEntries(w', Entries(log[..i + 1])) != After(w, log, i + 1)
  {
    w' := OtherEffect(w, log[i], i, After(w, log, i));
    EntriesRunTheLog(w, w', log, i, dbs);
    EntriesDiffer(w, w', log, i, dbs);
  }

  lemma {:induction false} EntriesDiffer(w: World, w': World, log: seq<Cmd>, i: nat, dbs: nat)
    requires i < |log| && AllLogged(log, dbs) && RunEntries(w', Entries(log[..i])) == After(w, log, i)
    requires Effect(w', WithLuck(log[i], i), After(w, log, i)) != Effect(w, log[i], After(w, log, i))
    ensures RunEntries(w', Entries(log[..i + 1])) != After(w, log, i + 1)
  {
    SerialSnoc(w, log, i);
    RunSnoc(w', log, i, dbs);
  }

  /**
   A log of recoverable commands is rebuilt as it was, by every server and at every length, exactly when each
   SUNIONSTORE in it found settled sources.
   */
  lemma {:induction false} AlwaysRebuildsExactly(w: World, log: seq<Cmd>, dbs: nat)
    requires Fair(w) && RecoverableLog(w, log, dbs)
    ensures AlwaysRebuilds(w, log, dbs) <==> SettledLog(w, log)
  {
    var settled := seq(|log|, j requires 0 <= j < |log| => SettledIn(w, log, j));
    var i := FirstFalse(settled);
    assert forall j :: 0 <= j < |log| ==> settled[j] == SettledIn(w, log, j);
    if i < |log| {
      var w' := UnsettledFails(w, log, i, dbs);
    } else {
      forall w', n | Alike(w, w') && 0 <= n <= |log| ensures Rebuilds(w, w', log, n, dbs) {
        SettledAlwaysRebuilds(w, w', log, n, dbs);
      }
    }
  }

  lemma {:induction false} FirstFalse(q: seq<bool>) returns (i: nat)
    ensures i <= |q| && (i < |q| ==> !q[i]) && forall j :: 0 <= j < i ==> q[j]
  {
    i := 0;
    while i < |q| && q[i]
      invariant i <= |q| && forall j :: 0 <= j < i ==> q[j]
    {
      i := i + 1;
    }
  }

  /** SADD of "x" and "007", and then SUNIONSTORE of that set: the log does not say what was stored. */
  lemma {:induction false} XAndZerosUnsettled(w: World, a: Key, d: Key, luck: nat)
    ensures !SettledLog(w, [SAdd(a, [X, ZEROS_SEVEN]), SUnionStore(d, [a], luck)])
  {
    var add, union := SAdd(a, [X, ZEROS_SEVEN]), SUnionStore(d, [a], luck);
    var log := [add, union];
    SerialSnoc(w, log, 0);
    assert log[..0] == [];
    AddedToEmpty(w, a, [X, ZEROS_SEVEN]);
    UnionUnsettled(a, d, luck);
    assert !SettledIn(w, log, 1);
  }

  lemma {:induction false} AddedToEmpty(w: World, a: Key, q: seq<bytes>)
    ensures Effect(w, SAdd(a, q), map[]) == map[a := SetOf(Poured(q))]
  {
  }

  lemma {:induction false} UnionUnsettled(a: Key, d: Key, luck: nat)
    ensures !SettledAt(map[a := SetOf(Poured([X, ZEROS_SEVEN]))], SUnionStore(d, [a], luck))
  {
    var s: Store := map[a := SetOf(Poured([X, ZEROS_SEVEN]))];
    TwoOrders();
    assert SourceSets(s, [a]) == [{X, ZEROS_SEVEN}];
    OneOutcomeExactly([{X, ZEROS_SEVEN}]);
  }

  // ----- logs in which nothing is ever merged -----

  /** Members that are no integers or canonical decimals come in. */
  predicate BringsFaithful(c: Cmd) {
    c.SAdd? ==> AllFaithful(Elements(c.members))
  }

  ghost predicate FaithfulStore(s: Store) {
    forall k :: k in s && s[k].SetOf? ==> Sound(s[k].held) && AllFaithful(s[k].held.members)
  }

  lemma {:induction false} FaithfulSources(s: Store, ks: seq<Key>)
    requires FaithfulStore(s)
    ensures AllFaithful(UnionOf(SourceSets(s, ks)))
  {
    if ks != [] {
      var n := |ks| - 1;
      FaithfulSources(s, ks[..n]);
      assert SourceSets(s, ks)[..n] == SourceSets(s, ks[..n]);
    }
  }

  lemma {:induction false} FreshIsSound(s: set<bytes>)
    requires AllFaithful(s)
    ensures Sound(Fresh(s))
  {
  }

  lemma {:induction false} WithoutAllShrinks(x: SetState, q: seq<bytes>)
    requires Sound(x)
    ensures WithoutAll(x, q).members <= x.members && Sound(WithoutAll(x, q))
  {
    if q != [] {
      WithoutAllShrinks(x, q[..|q| - 1]);
      WithStaysSound(WithoutAll(x, q[..|q| - 1]), q[|q| - 1]);
    }
  }

  /** The sets that a command leaves behind hold faithful members when those it found did. */
  lemma {:induction false} StaysFaithful(w: World, c: Cmd, s: Store)
    requires Fair(w) && BringsFaithful(c) && FaithfulStore(s)
    ensures FaithfulStore(Effect(w, c, s))
  {
    match c
    case SAdd(k, ms) => SAddStaysFaithful(w, k, ms, s);
    case SRem(k, ms) => if k in s && s[k].SetOf? { WithoutAllShrinks(s[k].held, ms); }
    case SUnionStore(_, ks, luck) =>
      FaithfulSources(s, ks);
      FaithfulUnion(w, luck, s, ks);
      FreshIsSound(UnionOf(SourceSets(s, ks)));
    case _ =>
  }

  lemma {:induction false} SAddStaysFaithful(w: World, k: Key, ms: seq<bytes>, s: Store)
    requires FaithfulStore(s) && AllFaithful(Elements(ms))
    ensures FaithfulStore(Effect(w, SAdd(k, ms), s))
  {
    var x := SetIn(Look(s, k));
    FaithfulAdds(x, ms);
    WithAllStaysSound(x, ms);
  }

  lemma {:induction false} FaithfulSerial(w: World, log: seq<Cmd>, n: nat)
    requires Fair(w) && n <= |log| && forall i :: 0 <= i < |log| ==> BringsFaithful(log[i])
    ensures FaithfulStore(After(w, log, n))
  {
    if n > 0 {
      FaithfulSerial(w, log, n - 1);
      SerialSnoc(w, log, n - 1);
      StaysFaithful(w, log[n - 1], After(w, log, n - 1));
    } else {
      assert log[..0] == [];
    }
  }

  /** When only faithful members are ever added, the whole log is settled. */
  lemma {:induction false} FaithfulLogIsSettled(w: World, log: seq<Cmd>)
    requires Fair(w) && forall i :: 0 <= i < |log| ==> BringsFaithful(log[i])
    ensures SettledLog(w, log)
  {
    forall i | 0 <= i < |log| ensures SettledIn(w, log, i) {
      FaithfulSerial(w, log, i);
      if log[i].SUnionStore? {
        var s := After(w, log, i);
        FaithfulSources(s, log[i].keys);
        FaithfulIsSettled(SourceSets(s, log[i].keys));
      }
    }
  }

  // ----- end to end -----

  /** A run of recoverable commands that starts with nothing. */
  ghost predicate RecoverableRun(w: World, run: seq<LP.State<Cmd>>, dbs: nat) {
    dbs <= MAX_INT64 && Fair(w) && LP.IsRun(Semantics(w), map[], run) && AllRecoverable(w, run[|run| - 1], dbs)
  }

  ghost predicate AllRecoverable(w: World, s: LP.State<Cmd>, dbs: nat) {
    forall t :: t in s.threads ==> Recoverable(w, s.threads[t].cmd, dbs)
  }

  lemma {:induction false} LogIsRecoverable(w: World, run: seq<LP.State<Cmd>>, dbs: nat)
    requires RecoverableRun(w, run, dbs)
    ensures RecoverableLog(w, run[|run| - 1].log, dbs)
  {
    var sem, last := Semantics(w), run[|run| - 1];
    LP.RunKeepsCommands(sem, map[], run, |run| - 1, |run| - 1);
    forall i | 0 <= i < |last.log| ensures Recoverable(w, last.log[i], dbs) && !last.log[i].Get? {
      assert LP.FromThread(sem, last, last.log[i]);
    }
  }

  lemma {:induction false} RunIsGood(w: World, run: seq<LP.State<Cmd>>, dbs: nat)
    requires RecoverableRun(w, run, dbs)
    ensures SerialOrder.AllGood(Semantics(w), run)
  {
    var sem := Semantics(w);
    SemanticsWellFormed(w);
    forall i, t | 0 <= i < |run| && t in run[i].threads ensures SerialOrder.Good(sem, run[i].threads[t].cmd) {
      LP.RunKeepsCommands(sem, map[], run, i, |run| - 1);
      var c := run[i].threads[t].cmd;
      assert run[|run| - 1].threads[t].cmd == c;
      FootprintExactly(w, c);
      QuietExactly(w, c);
    }
  }

  /**
   End to end. Any number of commands run concurrently, interleaved at every access, each under its own locks.
   Whenever no command is between taking and giving back its locks, and every logged SUNIONSTORE found settled
   sources, loading the bytes of the log into an empty server rebuilds the contents of the store, in whatever orders
   either server went through its sets.
   */
  lemma {:induction false} RebuiltIsTheStore(w: World, w': World, run: seq<LP.State<Cmd>>, last: LP.State<Cmd>, dbs: nat)
    requires RecoverableRun(w, run, dbs) && Alike(w, w') && last == run[|run| - 1] && SettledLog(w, last.log)
    requires forall t :: t in last.threads ==> !last.threads[t].phase.Running?
    ensures Rebuild(w', LogFile(last.log), dbs) == Some(last.store)
  {
    RunIsGood(w, run, dbs);
    SerialOrder.LogIsSerialOrder(Semantics(w), map[], run);
    LogIsRecoverable(w, run, dbs);
    SettledLogRebuilds(w, w', last.log, dbs);
  }

  /** In particular when no command brings a member that could be merged. */
  lemma {:induction false} FaithfulRunIsRebuilt(w: World, w': World, run: seq<LP.State<Cmd>>, last: LP.State<Cmd>, dbs: nat)
    requires RecoverableRun(w, run, dbs) && Alike(w, w') && last == run[|run| - 1]
    requires forall t :: t in last.threads ==> BringsFaithful(last.threads[t].cmd) && !last.threads[t].phase.Running?
    ensures Rebuild(w', LogFile(last.log), dbs) == Some(last.store)
  {
    LP.RunKeepsCommands(Semantics(w), map[], run, |run| - 1, |run| - 1);
    forall i | 0 <= i < |last.log| ensures BringsFaithful(last.log[i]) {
      assert LP.FromThread(Semantics(w), last, last.log[i]);
    }
    FaithfulLogIsSettled(w, last.log);
    RebuiltIsTheStore(w, w', run, last, dbs);
  }

  /**
   A server that stops in the middle of a write leaves some first bytes of the log. Whichever they are, what they
   rebuild is a serial run of the first logged commands: of all whose bytes are there, and at most one more that only
   lacks its last line break. No command is rebuilt in part or out of order.
   */
  lemma {:induction false} AnyCutRebuildsASerialRun(
      w: World, w': World, run: seq<LP.State<Cmd>>, last: LP.State<Cmd>, file: bytes, dbs: nat) returns (n: nat)
    requires RecoverableRun(w, run, dbs) && Alike(w, w') && last == run[|run| - 1] && SettledLog(w, last.log)
    requires file <= LogFile(last.log)
    ensures n <= |last.log| && Rebuild(w', file, dbs) == Some(Serial(Semantics(w), map[], last.log[..n]))
    ensures |LogFile(last.log[..n])| <= |file| + 2
    ensures forall m :: 0 <= m <= |last.log| && |LogFile(last.log[..m])| <= |file| ==> m <= n
  {
    LogIsRecoverable(w, run, dbs);
    n := CutRebuilds(w, w', last.log, file, dbs);
  }

  lemma {:induction false} CutRebuilds(w: World, w': World, log: seq<Cmd>, file: bytes, dbs: nat) returns (n: nat)
    requires Alike(w, w') && RecoverableLog(w, log, dbs) && SettledLog(w, log) && file <= LogFile(log)
    ensures n <= |log| && |LogFile(log[..n])| <= |file| + 2 && Rebuild(w', file, dbs) == Some(After(w, log, n))
    ensures forall m :: 0 <= m <= |log| && |LogFile(log[..m])| <= |file| ==> m <= n
  {
    RecoverableIsLogged(w, log, dbs);
    n := CutReplays(w', log, file, dbs);
    EntriesRunTheLog(w, w', log, n, dbs);
  }

  lemma {:induction false} CutReplays(w: World, log: seq<Cmd>, file: bytes, dbs: nat) returns (n: nat)
    requires AllLogged(log, dbs) && NoPanic(w, log) && file <= LogFile(log)
    ensures n <= |log| && |LogFile(log[..n])| <= |file| + 2 && Rebuild(w, file, dbs) == Some(RunEntries(w, Entries(log[..n])))
    ensures forall m :: 0 <= m <= |log| && |LogFile(log[..m])| <= |file| ==> m <= n
  {
    var ps, srv := Entries(log), ServerOf(w, dbs);
    LoggedEntries(w, log, dbs);
    n := TornLog.TornLogReplays(ps, srv, file);
    EntriesFirst(log);
    NoPanicFirst(w, log, n);
    NoPanicIsSmooth(w, log[..n], dbs);
  }

  lemma {:induction false} EntriesFirst(log: seq<Cmd>)
    ensures forall m :: 0 <= m <= |log| ==> Entries(log)[..m] == Entries(log[..m])
  {
    forall m | 0 <= m <= |log| ensures Entries(log)[..m] == Entries(log[..m]) { }
  }

  lemma {:induction false} NoPanicFirst(w: World, log: seq<Cmd>, n: nat)
    requires NoPanic(w, log) && n <= |log|
    ensures NoPanic(w, log[..n])
  {
    forall i | 0 <= i < n ensures !Panics(log[..n][i], RunEntries(w, Entries(log[..n][..i]))) {
      assert log[..n][..i] == log[..i];
    }
  }
}
