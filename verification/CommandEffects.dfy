/**
 What each command of database/ does to the store when it runs, key by key, and when it is logged. Nothing here speaks
 of the programs of module Commands or of their registers.
 */
module CommandEffects {
  import opened Bytes
  import opened Collections
  import opened Decimal
  import opened Values
  import opened Pouring
  import opened Programs
  import opened Commands

  // ----- strings and keys -----

  lemma {:induction false} GetDoes(w: World, k: Key, s: Store)
    ensures Exec(Semantics(w), Get(k), s) == s && !Logs(Semantics(w), Get(k), s)
  {
    Meaning(w, Get(k), s);
  }

  lemma {:induction false} SetDoes(w: World, k: Key, text: bytes, s: Store)
    ensures Exec(Semantics(w), Set(k, text), s) == s[k := Str(text)] && Logs(Semantics(w), Set(k, text), s)
  {
    Meaning(w, Set(k, text), s);
  }

  /** SETNX stores a text under an absent key only, and is logged either way. */
  lemma {:induction false} SetNXDoes(w: World, k: Key, text: bytes, s: Store)
    ensures k !in s ==> Exec(Semantics(w), SetNX(k, text), s) == s[k := Str(text)]
    ensures k in s ==> Exec(Semantics(w), SetNX(k, text), s) == s
    ensures Logs(Semantics(w), SetNX(k, text), s)
  {
    Meaning(w, SetNX(k, text), s);
  }

  lemma {:induction false} GetSetDoes(w: World, k: Key, text: bytes, s: Store)
    ensures Exec(Semantics(w), GetSet(k, text), s) == s[k := Str(text)] && Logs(Semantics(w), GetSet(k, text), s)
  {
    Meaning(w, GetSet(k, text), s);
  }

  lemma {:induction false} DelDoes(w: World, ks: seq<Key>, s: Store)
    ensures Exec(Semantics(w), Del(ks), s) == map x | x in s && x !in ks :: s[x]
    ensures Logs(Semantics(w), Del(ks), s) <==> exists k :: k in ks && k in s
  {
    Meaning(w, Del(ks), s);
    assert s - Elements(ks) == map x | x in s && x !in ks :: s[x];
  }

  /** RENAME without a source changes nothing; onto itself it loses the key. */
  lemma {:induction false} RenameDoes(w: World, src: Key, dst: Key, s: Store)
    ensures src !in s ==> Exec(Semantics(w), Rename(src, dst), s) == s
    ensures src in s ==>
              Exec(Semantics(w), Rename(src, dst), s) == map x | x in s.Keys + {dst} && x != src :: if x == dst then s[src] else s[x]
    ensures Logs(Semantics(w), Rename(src, dst), s) <==> src in s
  {
    Meaning(w, Rename(src, dst), s);
    if src in s {
      assert s[dst := s[src]] - {src} == map x | x in s.Keys + {dst} && x != src :: if x == dst then s[src] else s[x];
    }
  }

  /** RENAMENX is also refused, without being logged, when the destination is there. */
  lemma {:induction false} RenameNXDoes(w: World, src: Key, dst: Key, s: Store)
    ensures src !in s || dst in s ==> Exec(Semantics(w), RenameNX(src, dst), s) == s
    ensures src in s && dst !in s ==>
              Exec(Semantics(w), RenameNX(src, dst), s) == map x | x in s.Keys + {dst} && x != src :: if x == dst then s[src] else s[x]
    ensures Logs(Semantics(w), RenameNX(src, dst), s) <==> src in s && dst !in s
  {
    Meaning(w, RenameNX(src, dst), s);
    if src in s && dst !in s {
      assert s[dst := s[src]] - {src} == map x | x in s.Keys + {dst} && x != src :: if x == dst then s[src] else s[x];
    }
  }

  /** RENAME writes its destination before it deletes its source: in between both keys are there. */
  lemma {:induction false} RenameInBetween(w: World, src: Key, dst: Key, s: Store)
    requires src in s && src != dst
    ensures Solo(Semantics(w), Rename(src, dst), s, 1).1 == s
    ensures Solo(Semantics(w), Rename(src, dst), s, 2).1 == s[dst := s[src]]
  {
    var c := Rename(src, dst);
    assert StandsAt(w, c, s, 0, INIT, s);
    var l, t := Advance(w, c, s, 0, INIT, s);
    var l', t' := Advance(w, c, s, 1, l, t);
  }

  lemma {:induction false} FlushDBDoes(w: World, db: nat, s: Store)
    ensures Exec(Semantics(w), FlushDB(db), s) == map x | x in s && x.db != db :: s[x]
    ensures Logs(Semantics(w), FlushDB(db), s)
  {
    Meaning(w, FlushDB(db), s);
  }

  // ----- sets -----

  /** SADD to a key without a set makes one, also of no members; to any other value it does nothing. */
  lemma {:induction false} SAddDoes(w: World, k: Key, ms: seq<bytes>, s: Store)
    ensures k !in s ==> Exec(Semantics(w), SAdd(k, ms), s) == s[k := SetOf(Poured(ms))] && Logs(Semantics(w), SAdd(k, ms), s)
    ensures k in s && s[k].SetOf? ==>
              && Exec(Semantics(w), SAdd(k, ms), s) == s[k := SetOf(WithAll(s[k].held, ms))]
              && (Logs(Semantics(w), SAdd(k, ms), s) <==> Exec(Semantics(w), SAdd(k, ms), s) != s)
    ensures k in s && !s[k].SetOf? ==> Exec(Semantics(w), SAdd(k, ms), s) == s && !Logs(Semantics(w), SAdd(k, ms), s)
  {
    Meaning(w, SAdd(k, ms), s);
    if k in s && s[k].SetOf? { PutSet(s, k, WithAll(s[k].held, ms)); }
  }

  lemma {:induction false} PutSet(s: Store, k: Key, x: SetState)
    requires k in s && s[k].SetOf?
    ensures s[k := SetOf(x)] == s <==> x == s[k].held
  {
    assert s[k := SetOf(x)][k] == SetOf(x);
    assert s[k := s[k]] == s;
  }

  /** For members that are never merged: the set has them and what it had, and is logged when one of them is new. */
  lemma {:induction false} SAddAdds(w: World, k: Key, ms: seq<bytes>, s: Store)
    requires (k in s ==> s[k].SetOf? && Sound(s[k].held)) && AllFaithful(Elements(ms))
    ensures var t, was := Exec(Semantics(w), SAdd(k, ms), s), if k in s then s[k].held.members else {};
            && t.Keys == s.Keys + {k} && (forall x :: x in s && x != k ==> t[x] == s[x])
            && t[k].SetOf? && t[k].held.members == was + Elements(ms)
            && (Logs(Semantics(w), SAdd(k, ms), s) <==> k !in s || !(Elements(ms) <= was))
  {
    var x := if k in s then s[k].held else NO_MEMBERS;
    SAddDoes(w, k, ms, s);
    AddedExactly(x, ms);
    AddedKeyByKey(s, k, WithAll(x, ms), Exec(Semantics(w), SAdd(k, ms), s));
  }

  lemma {:induction false} AddedKeyByKey(s: Store, k: Key, x: SetState, t: Store)
    requires (k in s ==> s[k].SetOf?) && t == s[k := SetOf(x)]
    ensures t.Keys == s.Keys + {k} && (forall l :: l in s && l != k ==> t[l] == s[l]) && t[k] == SetOf(x)
    ensures k in s ==> (t == s <==> x == s[k].held)
  {
    if k in s { PutSet(s, k, x); }
  }

  lemma {:induction false} AddedExactly(x: SetState, q: seq<bytes>)
    requires Sound(x) && AllFaithful(Elements(q))
    ensures WithAll(x, q).members == x.members + Elements(q) && (WithAll(x, q) == x <==> Elements(q) <= x.members)
  {
    FaithfulAdds(x, q);
    if Elements(q) <= x.members { AddsNothing(x, q); } else { assert x.members + Elements(q) != x.members; }
  }

  lemma {:induction false} AddsNothing(x: SetState, q: seq<bytes>)
    requires Sound(x) && AllFaithful(Elements(q)) && Elements(q) <= x.members
    ensures WithAll(x, q) == x
  {
    FaithfulAdds(x, q);
    assert x.members + Elements(q) == x.members;
    if x.isIntset {
      forall m | m in Elements(q) ensures ParseInt(m).Some? { assert IsCanonical(m); }
    }
  }

  /** SREM drops a set that it has emptied, and does nothing to an absent key or another value. */
  lemma {:induction false} SRemDoes(w: World, k: Key, ms: seq<bytes>, s: Store)
    ensures k !in s || !s[k].SetOf? ==> Exec(Semantics(w), SRem(k, ms), s) == s && !Logs(Semantics(w), SRem(k, ms), s)
    ensures k in s && s[k].SetOf? ==>
              var left := WithoutAll(s[k].held, ms);
              && (Logs(Semantics(w), SRem(k, ms), s) <==> left != s[k].held)
              && (left != s[k].held && left.members == {} ==> Exec(Semantics(w), SRem(k, ms), s) == map x | x in s && x != k :: s[x])
              && (left == s[k].held || left.members != {} ==> Exec(Semantics(w), SRem(k, ms), s) == s[k := SetOf(left)])
  {
    Meaning(w, SRem(k, ms), s);
    if k in s && s[k].SetOf? {
      PutSet(s, k, WithoutAll(s[k].held, ms));
      assert s - {k} == map x | x in s && x != k :: s[x];
    }
  }

  /** For members that are never merged: the set loses them, and goes when it is left empty by that. */
  lemma {:induction false} SRemRemoves(w: World, k: Key, ms: seq<bytes>, s: Store)
    requires k in s && s[k].SetOf? && Sound(s[k].held) && AllFaithful(Elements(ms))
    ensures var t, was := Exec(Semantics(w), SRem(k, ms), s), s[k].held.members;
            && (forall x :: x != k ==> (x in t <==> x in s) && (x in s ==> t[x] == s[x]))
            && (k in t <==> was - Elements(ms) != {} || was * Elements(ms) == {})
            && (k in t ==> t[k].SetOf? && t[k].held.members == was - Elements(ms))
            && (Logs(Semantics(w), SRem(k, ms), s) <==> was * Elements(ms) != {})
  {
    SRemDoes(w, k, ms, s);
    RemovedExactly(s[k].held, ms);
    RemovedKeyByKey(s, k, WithoutAll(s[k].held, ms), Exec(Semantics(w), SRem(k, ms), s));
  }

  lemma {:induction false} RemovedExactly(x: SetState, q: seq<bytes>)
    requires Sound(x) && AllFaithful(Elements(q))
    ensures WithoutAll(x, q).members == x.members - Elements(q) && (WithoutAll(x, q) == x <==> x.members * Elements(q) == {})
  {
    FaithfulRemoves(x, q);
    if x.members * Elements(q) == {} {
      assert forall m :: m in x.members && m in Elements(q) ==> m in x.members * Elements(q);
      assert x.members - Elements(q) == x.members;
    } else {
      var m :| m in x.members * Elements(q);
      assert m !in x.members - Elements(q);
    }
  }

  lemma {:induction false} RemovedKeyByKey(s: Store, k: Key, left: SetState, t: Store)
    requires k in s && s[k].SetOf?
    requires t == if left != s[k].held && left.members == {} then map x | x in s && x != k :: s[x] else s[k := SetOf(left)]
    ensures forall x :: x != k ==> (x in t <==> x in s) && (x in s ==> t[x] == s[x])
    ensures k in t <==> left.members != {} || left == s[k].held
    ensures k in t ==> t[k] == SetOf(left)
  {
  }

  /** SUNIONSTORE stores a possible outcome of pouring its sources, and does nothing when one of them is no set. */
  lemma {:induction false} SUnionStoreDoes(w: World, dst: Key, ks: seq<Key>, luck: nat, s: Store)
    requires Fair(w)
    ensures var c, sets := SUnionStore(dst, ks, luck), forall k :: k in ks && k in s ==> s[k].SetOf?;
            && (Logs(Semantics(w), c, s) <==> sets)
            && (!sets ==> Exec(Semantics(w), c, s) == s)
            && (sets ==> exists x :: CanStore(SourceSets(s, ks), x) && Exec(Semantics(w), c, s) == s[dst := SetOf(x)])
  {
    Meaning(w, SUnionStore(dst, ks, luck), s);
    StoredUnionIsPossible(w, luck, s, ks);
    assert (forall k :: k in ks && k in s ==> s[k].SetOf?) <==> forall k :: k in ks ==> IsSetOrAbsent(s, k);
  }

  // ----- sorted sets -----

  /** The last entry of the member, if there is one. */
  ghost predicate LastEntry(es: seq<(bytes, bytes)>, member: bytes, i: nat) {
    i < |es| && es[i].1 == member && forall j :: i < j < |es| ==> es[j].1 != member
  }

  ghost function Names(es: seq<(bytes, bytes)>): set<bytes> {
    set i | 0 <= i < |es| :: es[i].1
  }

  /** At most half a millionth apart. */
  predicate CloseTo(a: real, b: real) {
    -0.0000005 <= a - b <= 0.0000005
  }

  /** The last score of each member counts, rounded in a listpack at most. */
  ghost predicate LastCounts(w: World, z: ZState, es: seq<(bytes, bytes)>, y: ZState) {
    forall i: nat, v :: i < |es| && LastEntry(es, es[i].1, i) && w.score(es[i].0) == Some(v) ==>
      es[i].1 in y.scores && CloseTo(y.scores[es[i].1], v) && (!z.isListpack ==> y.scores[es[i].1] == v)
  }

  ghost predicate OthersStay(z: ZState, es: seq<(bytes, bytes)>, y: ZState) {
    forall m :: m in z.scores && m !in Names(es) ==> m in y.scores && y.scores[m] == z.scores[m]
  }

  /** A listpack stays one up to 128 members. */
  ghost predicate ModeFollows(z: ZState, es: seq<(bytes, bytes)>, y: ZState) {
    && y.scores.Keys == z.scores.Keys + Names(es)
    && (y.isListpack <==> z.isListpack && (|y.scores| <= 128 || es == []))
  }

  /** The entries have been taken over one by one. */
  ghost predicate TakesOver(w: World, z: ZState, es: seq<(bytes, bytes)>, y: ZState) {
    OthersStay(z, es, y) && LastCounts(w, z, es, y) && ModeFollows(z, es, y)
  }

  lemma {:induction false} ScoresTakenOver(w: World, z: ZState, es: seq<(bytes, bytes)>)
    requires forall i :: 0 <= i < |es| ==> w.score(es[i].0).Some?
    ensures TakesOver(w, z, es, ScoresAfter(w, z, es))
  {
    if es != [] {
      var n := |es| - 1;
      ScoresTakenOver(w, z, es[..n]);
      OneMoreScore(w, z, es, ScoresAfter(w, z, es[..n]), ScoresAfter(w, z, es), w.score(es[n].0).value);
    }
  }

  lemma {:induction false} OneMoreScore(w: World, z: ZState, es: seq<(bytes, bytes)>, x: ZState, y: ZState, v: real)
    requires es != [] && w.score(es[|es| - 1].0) == Some(v) && TakesOver(w, z, es[..|es| - 1], x)
    requires y == Scored(x, es[|es| - 1].1, v)
    ensures TakesOver(w, z, es, y)
  {
    LastScores(w, z, es, x, y, v);
    OthersStillStay(z, es, x, y, v);
    ModeStillFollows(z, es, x, y, v);
  }

  lemma {:induction false} ModeStillFollows(z: ZState, es: seq<(bytes, bytes)>, x: ZState, y: ZState, v: real)
    requires es != [] && ModeFollows(z, es[..|es| - 1], x) && y == Scored(x, es[|es| - 1].1, v)
    ensures ModeFollows(z, es, y)
  {
    NamesMore(es);
    ScoredMeans(x, es[|es| - 1].1, v);
    SubsetSize(x.scores.Keys, y.scores.Keys);
  }

  lemma {:induction false} OthersStillStay(z: ZState, es: seq<(bytes, bytes)>, x: ZState, y: ZState, v: real)
    requires es != [] && OthersStay(z, es[..|es| - 1], x) && y == Scored(x, es[|es| - 1].1, v)
    ensures OthersStay(z, es, y)
  {
    NamesMore(es);
    ScoredMeans(x, es[|es| - 1].1, v);
  }

  lemma {:induction false} NamesMore(es: seq<(bytes, bytes)>)
    requires es != []
    ensures Names(es) == Names(es[..|es| - 1]) + {es[|es| - 1].1}
  {
    var n := |es| - 1;
    forall a ensures a in Names(es) <==> a in Names(es[..n]) || a == es[n].1 {
      if a in Names(es) {
        var i :| 0 <= i < |es| && es[i].1 == a;
        assert i < n ==> es[..n][i].1 == a;
      }
      if a in Names(es[..n]) {
        var i :| 0 <= i < n && es[..n][i].1 == a;
        assert es[i].1 == a;
      }
    }
  }

  lemma {:induction false} LastScores(w: World, z: ZState, es: seq<(bytes, bytes)>, x: ZState, y: ZState, v: real)
    requires es != [] && LastCounts(w, z, es[..|es| - 1], x) && (x.isListpack ==> z.isListpack)
    requires w.score(es[|es| - 1].0) == Some(v) && y == Scored(x, es[|es| - 1].1, v)
    ensures LastCounts(w, z, es, y)
  {
    var n := |es| - 1;
    forall i: nat, v | i < |es| && LastEntry(es, es[i].1, i) && w.score(es[i].0) == Some(v)
      ensures es[i].1 in y.scores && CloseTo(y.scores[es[i].1], v) && (!z.isListpack ==> y.scores[es[i].1] == v)
    {
      if i < n {
        assert es[..n][i] == es[i] && es[n].1 != es[i].1;
        assert LastEntry(es[..n], es[i].1, i);
      }
    }
  }

  /**
   ZADD takes over the entries in front of the first score that does not parse; with such a score it is not logged, and
   an absent key stays absent. It does nothing to another value.
   */
  lemma {:induction false} ZAddDoes(w: World, k: Key, es: seq<(bytes, bytes)>, s: Store, n: nat)
    requires n <= |es| && (forall i :: 0 <= i < n ==> w.score(es[i].0).Some?) && (n < |es| ==> w.score(es[n].0).None?)
    ensures var c, ok := ZAdd(k, es), k in s ==> s[k].ZSetOf?;
            && (!ok ==> Exec(Semantics(w), c, s) == s)
            && (k !in s && n < |es| ==> Exec(Semantics(w), c, s) == s)
            && (ok && (k in s || n == |es|) ==> exists y ::
                  Exec(Semantics(w), c, s) == s[k := ZSetOf(y)] && TakesOver(w, if k in s then s[k].ranked else NO_SCORES, es[..n], y))
            && (Logs(Semantics(w), c, s) <==> ok && n == |es|)
  {
    Meaning(w, ZAdd(k, es), s);
    ParsedIs(w, es, n);
    assert n == |es| ==> es[..n] == es;
    if (k in s ==> s[k].ZSetOf?) && (k in s || n == |es|) {
      var z := if k in s then s[k].ranked else NO_SCORES;
      var y := ScoresAfter(w, z, es[..n]);
      ScoresTakenOver(w, z, es[..n]);
      assert Exec(Semantics(w), ZAdd(k, es), s) == s[k := ZSetOf(y)];
    }
  }

  lemma {:induction false} ParsedIs(w: World, es: seq<(bytes, bytes)>, n: nat)
    requires n <= |es| && (forall i :: 0 <= i < n ==> w.score(es[i].0).Some?) && (n < |es| ==> w.score(es[n].0).None?)
    ensures Parsed(w, es) == es[..n]
  {
    if n > 0 {
      ParsedIs(w, es[1..], n - 1);
      assert es[..n] == [es[0]] + es[1..][..n - 1];
    }
  }

  // ----- what is locked -----

  /** The command locks the shards of the first keys for writing, and of the other keys for reading. */
  ghost predicate Locks(w: World, c: Cmd, forWriting: set<Key>, forReading: set<Key>) {
    && WriteShards(Semantics(w), c) == (set k | k in forWriting :: w.home(k))
    && Shards(Semantics(w), c) == set k | k in forWriting + forReading :: w.home(k)
  }

  lemma {:induction false} LocksOf(w: World, c: Cmd)
    ensures match c
            case Get(k) => Locks(w, c, {}, {k})
            case GetSet(k, _) => Locks(w, c, {}, {k})
            case Set(k, _) => Locks(w, c, {k}, {})
            case SetNX(k, _) => Locks(w, c, {k}, {})
            case SAdd(k, _) => Locks(w, c, {k}, {})
            case SRem(k, _) => Locks(w, c, {k}, {})
            case ZAdd(k, _) => Locks(w, c, {k}, {})
            case Del(ks) => Locks(w, c, Elements(ks), {})
            case Rename(src, dst) => Locks(w, c, {dst}, {src})
            case RenameNX(src, dst) => Locks(w, c, {dst}, {src})
            case SUnionStore(dst, ks, _) => Locks(w, c, {dst}, Elements(ks))
            case FlushDB(_) => Locks(w, c, {}, {})
  {
    KeysLocked(w, c, Elements(WriteKeys(c)), Elements(ReadKeys(c)));
  }

  lemma {:induction false} KeysLocked(w: World, c: Cmd, a: set<Key>, b: set<Key>)
    requires a == Elements(WriteKeys(c)) && b == Elements(ReadKeys(c))
    ensures Locks(w, c, a, b)
  {
    assert forall k :: k in WriteKeys(c) <==> k in a;
    assert forall k :: k in ReadKeys(c) <==> k in b;
    var homes := set k | k in a :: w.home(k);
    assert WriteShards(Semantics(w), c) == homes;
    assert (set k | k in a + b :: w.home(k)) == homes + set k | k in b :: w.home(k);
    assert Shards(Semantics(w), c) == homes + set k | k in b :: w.home(k);
  }
}
