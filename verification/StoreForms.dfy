/**
 SUNIONSTORE, SINTERSTORE and SDIFFSTORE: what the cluster router leaves at the destination and replies
 (cluster/router.go), against what one node does with the same sources (database/set.go).
 */
module StoreForms {
  import opened Bytes
  import opened Values
  import opened Pouring
  import opened Programs
  import opened SetAlgebra
  import opened SetCommands
  import Resp
  import RoundTrip
  import Relay

  const SADD: bytes := [83, 65, 68, 68]

  function SAddLine(dest: bytes, q: seq<bytes>): seq<bytes> {
    [SADD, dest] + q
  }

  /** The SADD that fills the destination is run: on the node itself, or because its line can be read over there. */
  predicate Reaches(dest: bytes, q: seq<bytes>, far: bool) {
    far && q != [] ==> RoundTrip.Readable(Resp.Strings(SAddLine(dest, q)))
  }

  /** One node: the new set is stored even when it is empty. */
  function NodeStore(s: Shelf, dest: bytes, a: Answer, q: seq<bytes>, empty: Resp.Reply): (Shelf, Resp.Reply) {
    var (x, r) := NodeStores(a, q, empty);
    (if x.Some? then s[dest := SetOf(x.value)] else s, r)
  }

  /** The router: DEL and then SADD for an array, and any other reply is passed on. */
  function RouterStore(s: Shelf, dest: bytes, a: Answer, q: seq<bytes>, far: bool): (Shelf, Resp.Reply) {
    match a
    case Members(_) =>
      if q == [] then (s - {dest}, Resp.Int(0))
      else if !Reaches(dest, q, far) then (s - {dest}, Resp.Error(Relay.TIMED_OUT))
      else (s[dest := SetOf(Poured(q))], Resp.Int(|Poured(q).members|))
    case EmptyArray => (s, Resp.EmptyMultiBulk)
    case WrongType => (s, Resp.Error(WRONG_TYPE))
    case Unknown => (s, Resp.Error(UNKNOWN))
  }

  /** For members that are never merged the router stores exactly them, and replies how many they are. */
  lemma {:induction false} RouterStoreMeans(s: Shelf, dest: bytes, a: Answer, q: seq<bytes>, far: bool)
    requires InOrder(q, a) && (a.Members? ==> AllFaithful(a.s)) && Reaches(dest, q, far)
    ensures var (t, r) := RouterStore(s, dest, a, q, far);
            && (forall k :: k != dest ==> (k in t <==> k in s) && (k in s ==> t[k] == s[k]))
            && (a.Members? ==> (dest in t <==> a.s != {}) && (dest in t ==> t[dest] == SetOf(Fresh(a.s))) && r == Resp.Int(|a.s|))
            && (!a.Members? ==> t == s && Reads(r, a))
  {
    if a.Members? {
      FaithfulPour(q);
      if q != [] { assert q[0] in a.s; }
    }
  }

  lemma {:induction false} NodeStoreMeans(s: Shelf, dest: bytes, a: Answer, q: seq<bytes>, empty: Resp.Reply)
    requires InOrder(q, a) && (a.Members? ==> AllFaithful(a.s))
    ensures var (t, r) := NodeStore(s, dest, a, q, empty);
            && (forall k :: k != dest ==> (k in t <==> k in s) && (k in s ==> t[k] == s[k]))
            && (a.Members? ==> dest in t && t[dest] == SetOf(Fresh(a.s)) && r == Resp.Int(|a.s|))
            && (!a.Members? ==> t == s && if a == EmptyArray then r == empty else Reads(r, a))
  {
    if a.Members? { FaithfulPour(q); }
  }

  lemma {:induction false} Texts()
    ensures WRONG_TYPE != Relay.TIMED_OUT && UNKNOWN != Relay.TIMED_OUT && WRONG_TYPE != UNKNOWN
  {
    assert |WRONG_TYPE| == 66 && |UNKNOWN| == 11 && |Relay.TIMED_OUT| == 15;
  }

  /** Two answers whose members are never merged, stored by the router and by one node. */
  lemma {:induction false} StoreExactly(s: Shelf, dest: bytes, a: Answer, q: seq<bytes>, far: bool, b: Answer, p: seq<bytes>, empty: Resp.Reply)
    requires InOrder(q, a) && InOrder(p, b) && (a.Members? ==> AllFaithful(a.s)) && (b.Members? ==> AllFaithful(b.s))
    requires empty == Resp.EmptyMultiBulk || empty == Resp.Int(0)
    ensures RouterStore(s, dest, a, q, far) == NodeStore(s, dest, b, p, empty) <==>
              if a == EmptyArray then b == EmptyArray && empty == Resp.EmptyMultiBulk
              else if a == Members({}) then b == EmptyArray && empty == Resp.Int(0) && dest !in s
              else a == b && Reaches(dest, q, far)
  {
    Texts();
    if a.Members? { FaithfulPour(q); }
    if b.Members? { FaithfulPour(p); }
    if a.Members? && q == [] {
      assert a.s == {};
      if b.Members? { assert dest in NodeStore(s, dest, b, p, empty).0; }
      assert s - {dest} == s <==> dest !in s;
    }
    if a.Members? && q != [] {
      assert q[0] in a.s;
      SetsDiffer(s, dest, a.s, b);
    }
  }

  /** What is stored tells which set it was. */
  lemma {:induction false} SetsDiffer(s: Shelf, dest: bytes, m: set<bytes>, b: Answer)
    ensures b.Members? && s[dest := SetOf(Fresh(m))] == s[dest := SetOf(Fresh(b.s))] ==> m == b.s
  {
    if b.Members? && s[dest := SetOf(Fresh(m))] == s[dest := SetOf(Fresh(b.s))] {
      assert s[dest := SetOf(Fresh(m))][dest] == SetOf(Fresh(m)) && s[dest := SetOf(Fresh(b.s))][dest] == SetOf(Fresh(b.s));
    }
  }

  // ----- the members of an answer are members of the sources -----

  lemma {:induction false} InAnyFaithful(xs: seq<Source>)
    requires Plain(xs)
    ensures AllFaithful(InAny(xs))
  {
    forall m | m in InAny(xs) ensures Faithful(true, m) {
      var i :| 0 <= i < |xs| && m in MembersOf(xs[i]);
      assert xs[i].Has?;
    }
  }

  lemma {:induction false} SourceWithin(xs: seq<Source>, i: nat)
    requires i < |xs|
    ensures MembersOf(xs[i]) <= InAny(xs)
  {
  }

  ghost predicate AllWithin(q: seq<set<bytes>>, s: set<bytes>) {
    forall i :: 0 <= i < |q| ==> q[i] <= s
  }

  lemma {:induction false} GatherWithin(ys: seq<Answer>, s: set<bytes>)
    requires forall i :: 0 <= i < |ys| && ys[i].Members? ==> ys[i].s <= s
    ensures Gather(ys).Sets? ==> AllWithin(Gather(ys).q, s)
    ensures Gather(ys).Ends? && Gather(ys).a.Members? ==> Gather(ys).a.s == {}
  {
    if ys != [] { GatherWithin(ys[..|ys| - 1], s); }
  }

  lemma {:induction false} InterWithin(xs: seq<Source>, away: seq<bool>)
    requires xs != [] && |away| == |xs|
    ensures var a := ClusterInter(AllSeen(xs, away)); a.Members? ==> a.s <= InAny(xs)
  {
    var ys := AllSeen(xs, away);
    forall i | 0 <= i < |ys| && ys[i].Members? ensures ys[i].s <= InAny(xs) { SourceWithin(xs, i); }
    GatherWithin(ys, InAny(xs));
    if |ys| > 1 && Gather(ys).Sets? && Gather(ys).q != [] {
      var q := Gather(ys).q;
      assert q[0] <= InAny(xs);
      forall m | m in Meet(q) ensures m in q[0] { MeetIs(q, m); }
    }
  }

  lemma {:induction false} DiffRestWithin(acc: set<bytes>, ys: seq<Answer>)
    ensures var a := ClusterDiffRest(acc, ys); a.Members? ==> a.s <= acc
    decreases |ys|
  {
    if ys != [] {
      if ys[0].Members? { DiffRestWithin(acc - ys[0].s, ys[1..]); } else { DiffRestWithin(acc, ys[1..]); }
    }
  }

  lemma {:induction false} DiffWithin(xs: seq<Source>, away: seq<bool>)
    requires xs != [] && |away| == |xs|
    ensures var a := ClusterDiff(AllSeen(xs, away)); a.Members? ==> a.s <= InAny(xs)
  {
    SourceWithin(xs, 0);
    DiffRestWithin(MembersOf(xs[0]), AllSeen(xs, away)[1..]);
  }

  // ----- the three store forms -----

  /** SUNIONSTORE over the nodes does what one node does unless the union is empty, or its SADD is lost. */
  lemma {:induction false} UnionStoreExactly(s: Shelf, dest: bytes, xs: seq<Source>, far: bool,
      orders: seq<seq<bytes>>, q: seq<bytes>, orders': seq<seq<bytes>>, q': seq<bytes>)
    requires Plain(xs) && Goes(orders, xs) && Goes(orders', xs)
    requires InOrder(q, UnionBy(xs, orders)) && InOrder(q', UnionBy(xs, orders'))
    ensures RouterStore(s, dest, UnionBy(xs, orders), q, far) == NodeStore(s, dest, UnionBy(xs, orders'), q', Resp.EmptyMultiBulk)
            <==> (AllSets(xs) ==> InAny(xs) != {}) && Reaches(dest, q, far)
  {
    UnionIs(xs, orders);
    UnionIs(xs, orders');
    InAnyFaithful(xs);
    StoreExactly(s, dest, UnionBy(xs, orders), q, far, UnionBy(xs, orders'), q', Resp.EmptyMultiBulk);
  }

  /** One node finds that the sources in front of the first one of another type have nothing in common. */
  ghost predicate NothingCommon(xs: seq<Source>) {
    Typed(xs) != [] && Common(Typed(xs)) == {}
  }

  /**
   SINTERSTORE over the nodes does what one node does exactly when SINTER is right and finds something, or an error.
   For an empty intersection one node passes the empty array on and leaves the destination; the router deletes it and
   replies 0, except for a single absent source on another node.
   */
  lemma {:induction false} InterStoreExactly(s: Shelf, dest: bytes, xs: seq<Source>, away: seq<bool>, far: bool,
      q: seq<bytes>, orders: seq<seq<bytes>>, q': seq<bytes>)
    requires xs != [] && |away| == |xs| && Stored(xs) && Plain(xs) && Goes(orders, xs)
    requires InOrder(q, ClusterInter(AllSeen(xs, away))) && InOrder(q', InterBy(xs, orders))
    ensures RouterStore(s, dest, ClusterInter(AllSeen(xs, away)), q, far) == NodeStore(s, dest, InterBy(xs, orders), q', Resp.EmptyMultiBulk)
            <==> InterIsRight(xs, away) && (NothingCommon(xs) ==> |xs| == 1 && away[0]) && Reaches(dest, q, far)
  {
    var a, b := ClusterInter(AllSeen(xs, away)), Inter(xs);
    InterByIs(xs, orders);
    SameInterExactly(xs, away);
    InterAnswers(xs);
    InterWithin(xs, away);
    InAnyFaithful(xs);
    assert a == EmptyArray <==> |xs| == 1 && away[0] && xs[0] == Absent by { ArrayFromElsewhere(xs, away); }
    if |xs| == 1 && NothingCommon(xs) { OneAbsent(xs); }
    StoreExactly(s, dest, a, q, far, b, q', Resp.EmptyMultiBulk);
  }

  lemma {:induction false} OneAbsent(xs: seq<Source>)
    requires |xs| == 1 && NothingCommon(xs) && Stored(xs)
    ensures xs[0] == Absent
  {
    InterMeans(xs);
    assert Typed(xs) == xs;
  }

  lemma {:induction false} ArrayFromElsewhere(xs: seq<Source>, away: seq<bool>)
    requires xs != [] && |away| == |xs| && Stored(xs)
    ensures ClusterInter(AllSeen(xs, away)) == EmptyArray <==> |xs| == 1 && away[0] && xs[0] == Absent
  {
    if |xs| > 1 { GatherIs(xs, away); }
  }

  /** What SINTER can answer on one node. */
  lemma {:induction false} InterAnswers(xs: seq<Source>)
    requires xs != [] && Stored(xs) && Plain(xs)
    ensures Inter(xs) == EmptyArray <==> NothingCommon(xs)
    ensures Inter(xs) != Unknown && Inter(xs) != Members({}) && (Inter(xs).Members? ==> AllFaithful(Inter(xs).s))
  {
    InterMeans(xs);
    if xs[0].Has? { InterRestAnswers(xs[0].held.members, xs[1..]); }
    InAnyFaithful(xs);
    SourceWithin(xs, 0);
    if xs[0] == Absent { assert Typed(xs)[0] == Absent; assert Common(Typed(xs)) == {}; }
  }

  lemma {:induction false} InterRestAnswers(acc: set<bytes>, xs: seq<Source>)
    requires acc != {}
    ensures var b := InterRest(acc, xs); b != Unknown && (b.Members? ==> b.s != {} && b.s <= acc)
    decreases |xs|
  {
    if xs != [] && xs[0].Has? && acc * xs[0].held.members != {} { InterRestAnswers(acc * xs[0].held.members, xs[1..]); }
  }

  /** One node finds nothing left before it comes to a source of another type. */
  ghost predicate NothingLeftOver(xs: seq<Source>) {
    Typed(xs) != [] && OnlyInFirst(Typed(xs)) == {}
  }

  lemma {:induction false} DiffRestAnswers(acc: set<bytes>, xs: seq<Source>)
    requires acc != {}
    ensures var b := DiffRest(acc, xs); b != Unknown && (b.Members? ==> b.s != {} && b.s <= acc)
    ensures DiffRest(acc, xs) == EmptyArray <==> OnlyInFirst([Holding(acc)] + Typed(xs)) == {}
    decreases |xs|
  {
    var p := Typed(xs);
    if p == [] {
      assert OnlyInFirst([Holding(acc)] + p) == acc;
    } else {
      var left := acc - MembersOf(xs[0]);
      assert p[1..] == Typed(xs[1..]);
      DiffStep(acc, p);
      if left == {} {
        assert OnlyInFirst([Holding(left)] + p[1..]) == {};
      } else {
        assert xs[0].Absent? ==> left == acc;
        DiffRestAnswers(left, xs[1..]);
      }
    }
  }

  /** What SDIFF can answer on one node. */
  lemma {:induction false} DiffAnswers(xs: seq<Source>)
    requires xs != [] && Stored(xs) && Plain(xs)
    ensures Diff(xs) == EmptyArray <==> NothingLeftOver(xs)
    ensures Diff(xs) != Unknown && Diff(xs) != Members({}) && (Diff(xs).Members? ==> AllFaithful(Diff(xs).s))
  {
    var p := Typed(xs);
    InAnyFaithful(xs);
    SourceWithin(xs, 0);
    if xs[0].Has? {
      DiffRestAnswers(xs[0].held.members, xs[1..]);
      OnlyMembersCount(xs[0], p[1..]);
      assert p[1..] == Typed(xs[1..]) && [xs[0]] + p[1..] == p;
    } else if xs[0].Absent? {
      assert p[0] == Absent;
      assert OnlyInFirst(p) == {};
    }
  }

  lemma {:induction false} DiffRestIsArray(acc: set<bytes>, ys: seq<Answer>)
    ensures ClusterDiffRest(acc, ys) != EmptyArray
    decreases |ys|
  {
    if ys != [] {
      if ys[0].Members? { DiffRestIsArray(acc - ys[0].s, ys[1..]); } else { DiffRestIsArray(acc, ys[1..]); }
    }
  }

  /**
   SDIFFSTORE over the nodes does what one node does exactly when SDIFF is right and the destination need not go:
   for an empty difference both reply 0, but one node leaves the destination where it is.
   */
  lemma {:induction false} DiffStoreExactly(s: Shelf, dest: bytes, xs: seq<Source>, away: seq<bool>, far: bool,
      q: seq<bytes>, orders: seq<seq<bytes>>, q': seq<bytes>)
    requires xs != [] && |away| == |xs| && Stored(xs) && Plain(xs) && Goes(orders, xs)
    requires InOrder(q, ClusterDiff(AllSeen(xs, away))) && InOrder(q', DiffBy(xs, orders))
    ensures RouterStore(s, dest, ClusterDiff(AllSeen(xs, away)), q, far) == NodeStore(s, dest, DiffBy(xs, orders), q', Resp.Int(0))
            <==> DiffIsRight(xs, away) && (NothingLeftOver(xs) ==> dest !in s) && Reaches(dest, q, far)
  {
    var a, b := ClusterDiff(AllSeen(xs, away)), Diff(xs);
    DiffByIs(xs, orders);
    SameDiffExactly(xs, away);
    DiffAnswers(xs);
    DiffWithin(xs, away);
    InAnyFaithful(xs);
    DiffRestIsArray(MembersOf(xs[0]), AllSeen(xs, away)[1..]);
    StoreExactly(s, dest, a, q, far, b, q', Resp.Int(0));
  }
}
