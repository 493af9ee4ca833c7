/**
 A cluster of nodes behind the routing functions of cluster/router.go, and the one key space it stands for.

 The nodes agree on the owner of every key (module Ring shows when). A command arrives at one node, which runs it
 itself or has another node run it: its line is printed and parsed on the way there, and the reply on the way back. The
 connections between the nodes are in step (module Relay shows when).
 */
module Cluster {
  import opened Bytes
  import opened Collections
  import opened Decimal
  import opened Values
  import opened Pouring
  import opened Programs
  import Resp
  import RoundTrip
  import Ring
  import opened SetAlgebra
  import opened SetCommands
  import opened StoreForms
  import opened Relay
  import HS = HashSet

  const OTHER_NODE: bytes := [69, 82, 82, 32] + [115, 111, 117, 114, 99, 101, 32] + [97, 110, 100, 32] +
    [100, 101, 115, 116, 105, 110, 97, 116, 105, 111, 110, 32] + [107, 101, 121, 115, 32] + [97, 114, 101, 32] +
    [111, 110, 32] + [100, 105, 102, 102, 101, 114, 101, 110, 116, 32] + [110, 111, 100, 101, 115]
  const NO_SUCH_KEY: bytes := [69, 82, 82, 32] + [110, 111, 32] + [115, 117, 99, 104, 32] + [107, 101, 121]
  const ARG_NUM: bytes := [69, 82, 82, 32] + [119, 114, 111, 110, 103, 32] + [110, 117, 109, 98, 101, 114, 32] +
    [111, 102, 32] + [97, 114, 103, 117, 109, 101, 110, 116, 115]
  const OK: bytes := [79, 75]
  const DEL: bytes := [68, 69, 76]
  const SMEMBERS: bytes := [83, 77, 69, 77, 66, 69, 82, 83]
  const RENAME: bytes := [82, 69, 78, 65, 77, 69]
  const DELETE_FAILED: bytes := [101, 114, 114, 111, 114, 32] + [111, 99, 99, 117, 114, 115, 32] +
    [100, 117, 114, 105, 110, 103, 32] + [109, 117, 108, 116, 105, 45, 107, 101, 121, 32] + [100, 101, 108, 101, 116, 101, 58, 32]

  function ArgNumText(cmd: bytes): bytes {
    ARG_NUM + [32, 102, 111, 114, 32, 39] + cmd + [39, 32, 99, 111, 109, 109, 97, 110, 100]
  }

  lemma {:induction false} ShortTexts()
    ensures OK == Ascii("OK") && UNKNOWN == Ascii("ERR unknown") && NO_SUCH_KEY == Ascii("ERR no such key")
    ensures TIMED_OUT == Ascii("server time out")
  {
  }

  lemma {:induction false} RelayedNames()
    ensures DEL == Ascii("DEL") && SMEMBERS == Ascii("SMEMBERS") && RENAME == Ascii("RENAME") && SADD == Ascii("SADD")
  {
  }

  // ----- one key space -----

  function Find(s: Shelf, k: bytes): Option<Value> {
    if k in s then Some(s[k]) else None
  }

  function Updated(s: Shelf, k: bytes, v: Option<Value>): Shelf {
    match v
    case None => s - {k}
    case Some(x) => s[k := x]
  }

  /** Every key lies on its owner. */
  ghost predicate Placed(shelves: map<bytes, Shelf>, pick: bytes -> bytes) {
    forall n, k :: n in shelves && k in shelves[n] ==> pick(k) == n
  }

  ghost predicate IsOne(shelves: map<bytes, Shelf>, pick: bytes -> bytes, one: Shelf) {
    forall k :: pick(k) in shelves && Find(one, k) == Find(shelves[pick(k)], k)
  }

  lemma {:induction false} OneExists(shelves: map<bytes, Shelf>, pick: bytes -> bytes)
    requires Placed(shelves, pick) && forall k :: pick(k) in shelves
    ensures exists one :: IsOne(shelves, pick, one)
  {
    var keys := set n, k | n in shelves && k in shelves[n] :: k;
    var one := map k | k in keys :: shelves[pick(k)][k];
    assert IsOne(shelves, pick, one);
  }

  lemma {:induction false} OneUnique(shelves: map<bytes, Shelf>, pick: bytes -> bytes, one: Shelf, two: Shelf)
    requires IsOne(shelves, pick, one) && IsOne(shelves, pick, two)
    ensures one == two
  {
    forall k ensures Find(one, k) == Find(two, k) { assert Find(one, k) == Find(shelves[pick(k)], k); }
    assert forall k :: k in one <==> Find(one, k).Some?;
    assert forall k :: k in two <==> Find(two, k).Some?;
  }

  /** A change of one key on its owner is that change in the one key space. */
  lemma {:induction false} OneStore(shelves: map<bytes, Shelf>, pick: bytes -> bytes, one: Shelf, key: bytes, v: Option<Value>)
    requires Placed(shelves, pick) && IsOne(shelves, pick, one)
    ensures var n := pick(key);
            && n in shelves
            && Placed(shelves[n := Updated(shelves[n], key, v)], pick)
            && IsOne(shelves[n := Updated(shelves[n], key, v)], pick, Updated(one, key, v))
  {
    var n := pick(key);
    assert Find(one, key) == Find(shelves[n], key);
    var shelves' := shelves[n := Updated(shelves[n], key, v)];
    forall k ensures pick(k) in shelves' && Find(Updated(one, key, v), k) == Find(shelves'[pick(k)], k) {
      assert Find(one, k) == Find(shelves[pick(k)], k);
    }
  }

  // ----- replies -----

  lemma {:induction false} InterTells(r: Resp.Reply, xs: seq<Source>, away: seq<bool>)
    requires xs != [] && |away| == |xs| && Stored(xs) && Plain(xs) && Reads(r, ClusterInter(AllSeen(xs, away)))
    ensures forall orders :: Goes(orders, xs) ==> (Tells(r, InterBy(xs, orders)) <==> InterIsRight(xs, away))
  {
    forall orders | Goes(orders, xs) ensures Tells(r, InterBy(xs, orders)) <==> InterIsRight(xs, away) {
      InterExactly(xs, away, orders);
      TellsExactly(r, ClusterInter(AllSeen(xs, away)), InterBy(xs, orders));
    }
  }

  lemma {:induction false} DiffTells(r: Resp.Reply, xs: seq<Source>, away: seq<bool>)
    requires xs != [] && |away| == |xs| && Stored(xs) && Plain(xs) && Reads(r, ClusterDiff(AllSeen(xs, away)))
    ensures forall orders :: Goes(orders, xs) ==> (Tells(r, DiffBy(xs, orders)) <==> DiffIsRight(xs, away))
  {
    forall orders | Goes(orders, xs) ensures Tells(r, DiffBy(xs, orders)) <==> DiffIsRight(xs, away) {
      DiffExactly(xs, away, orders);
      TellsExactly(r, ClusterDiff(AllSeen(xs, away)), DiffBy(xs, orders));
    }
  }

  /** Members that a reply can carry from node to node. */
  predicate CleanSet(s: set<bytes>) {
    |s| <= Resp.MAX_UINT32 && forall m :: m in s ==> CleanArg(m)
  }

  // ----- requests -----

  /** An argument that the parser can have sent, and that is not too long to be sent on. */
  predicate Sent(arg: bytes) {
    RoundTrip.Plain(Some(arg))
  }

  predicate IsLine(line: seq<bytes>) {
    0 < |line| <= Resp.MAX_UINT32 && forall i :: 0 <= i < |line| ==> Sent(line[i])
  }

  predicate GetsThrough(line: seq<bytes>) {
    RoundTrip.Readable(Resp.Strings(line))
  }

  /** Of the lines that the parser can have sent, those arrive that have no empty argument but the last. */
  lemma {:induction false} GetsThroughExactly(line: seq<bytes>)
    requires IsLine(line)
    ensures GetsThrough(line) <==> forall i :: 0 <= i < |line| - 1 ==> line[i] != []
  {
    var m := Resp.Strings(line);
    assert forall i :: 0 <= i < |line| ==> m[i] == Some(line[i]) && RoundTrip.Plain(m[i]);
  }

  /** The line printed here and parsed over there: whether it is received. */
  method Deliver(line: seq<bytes>) returns (received: bool)
    requires IsLine(line)
    ensures received == GetsThrough(line)
  {
    RequestArrives(line);
    var (sent, _) := Resp.Run(Resp.IDLE, Resp.ToBytes(Resp.MultiBulk(Resp.Strings(line))));
    received := RoundTrip.Received(sent) == [Resp.Strings(line)];
  }

  /** What is at the place of each source, and whether it lies on another node. */
  function Sources(s: Shelf, names: seq<bytes>): (xs: seq<Source>)
    ensures |xs| == |names| && forall i :: 0 <= i < |xs| ==> xs[i] == SourceOf(s, names[i])
  {
    seq(|names|, i requires 0 <= i < |names| => SourceOf(s, names[i]))
  }

  function Away(pick: bytes -> bytes, self: bytes, names: seq<bytes>): (r: seq<bool>)
    ensures |r| == |names| && forall i :: 0 <= i < |r| ==> r[i] == (pick(names[i]) != self)
  {
    seq(|names|, i requires 0 <= i < |names| => pick(names[i]) != self)
  }

  lemma {:induction false} ListClean(q: seq<bytes>, s: set<bytes>)
    requires Lists(q, s) && CleanSet(s)
    ensures |q| <= Resp.MAX_UINT32 && forall i :: 0 <= i < |q| ==> CleanArg(q[i])
  {
    assert forall i :: 0 <= i < |q| ==> q[i] in s;
  }

  lemma {:induction false} WrongTypeText()
    ensures Resp.LF !in WRONG_TYPE
  {
  }

  /** The members in an array reply, gone through one by one. */
  method Collect(q: seq<bytes>) returns (s: set<bytes>)
    ensures s == Elements(q)
  {
    s := {};
    for i := 0 to |q|
      invariant s == Elements(q[..i])
    {
      assert q[..i + 1] == q[..i] + [q[i]];
      ElementsMore(q[..i], q[i]);
      s := s + {q[i]};
    }
    assert q[..|q|] == q;
  }

  lemma {:induction false} UnionEnds(ys: seq<Answer>, orders: seq<seq<bytes>>, i: nat)
    requires |orders| == |ys| && i <= |ys| && ClusterUnionState(ys[..i], orders[..i]).0.None?
    ensures ClusterUnionState(ys, orders) == ClusterUnionState(ys[..i], orders[..i])
    decreases |ys|
  {
    if i == |ys| {
      assert ys[..i] == ys && orders[..i] == orders;
    } else {
      var n := |ys| - 1;
      assert ys[..n][..i] == ys[..i] && orders[..n][..i] == orders[..i];
      UnionEnds(ys[..n], orders[..n], i);
    }
  }

  lemma {:induction false} UnionStep(ys: seq<Answer>, orders: seq<seq<bytes>>, q: seq<bytes>)
    requires |orders| < |ys| && ClusterUnionState(ys[..|orders|], orders).0.Some? && (ys[|orders|] == EmptyArray ==> q == [])
    ensures var (acc, step) := (ClusterUnionState(ys[..|orders|], orders).0.value, ClusterUnionState(ys[..|orders| + 1], orders + [q]));
            match ys[|orders|]
            case WrongType => step == (None, WrongType)
            case Unknown => step == (None, Unknown)
            case _ => step == (Some(WithAll(acc, q)), Members(WithAll(acc, q).members))
  {
    var i := |orders|;
    assert ys[..i + 1][..i] == ys[..i] && (orders + [q])[..i] == orders;
  }

  lemma {:induction false} GatherSticks(ys: seq<Answer>, i: nat)
    requires i <= |ys| && Gather(ys[..i]).Ends?
    ensures Gather(ys) == Gather(ys[..i])
    decreases |ys|
  {
    if i == |ys| {
      assert ys[..i] == ys;
    } else {
      assert ys[..|ys| - 1][..i] == ys[..i];
      GatherSticks(ys[..|ys| - 1], i);
    }
  }

  lemma {:induction false} GatherStep(ys: seq<Answer>, i: nat, q: seq<set<bytes>>)
    requires i < |ys| && Gather(ys[..i]) == Sets(q)
    ensures Gather(ys[..i + 1]) == match ys[i]
              case Members(m) => (if m == {} then Ends(Members({})) else Sets(q + [m]))
              case EmptyArray => Sets(q)
              case e => Ends(e)
    ensures Gather(ys[..i + 1]).Ends? ==> Gather(ys) == Gather(ys[..i + 1])
  {
    assert ys[..i + 1][..i] == ys[..i];
    if Gather(ys[..i + 1]).Ends? { GatherSticks(ys, i + 1); }
  }

  lemma {:induction false} MeetStaysEmpty(q: seq<set<bytes>>, i: nat)
    requires 0 < i <= |q| && Meet(q[..i]) == {}
    ensures Meet(q) == {}
    decreases |q|
  {
    if i == |q| {
      assert q[..i] == q;
    } else {
      assert q[..|q| - 1][..i] == q[..i];
      MeetStaysEmpty(q[..|q| - 1], i);
    }
  }

  /** The union of the sources gone through so far. */
  ghost predicate Joins(ys: seq<Answer>, xs: seq<Source>, orders: seq<seq<bytes>>, acc: SetState) {
    |orders| <= |ys| == |xs| && Goes(orders, xs[..|orders|]) && ClusterUnionState(ys[..|orders|], orders).0 == Some(acc)
  }

  lemma {:induction false} JoinsMore(ys: seq<Answer>, xs: seq<Source>, orders: seq<seq<bytes>>, acc: SetState, q: seq<bytes>)
    requires Joins(ys, xs, orders, acc) && |orders| < |ys| && Lists(q, MembersOf(xs[|orders|]))
    requires ys[|orders|].Members? || (ys[|orders|].EmptyArray? && q == [])
    ensures Joins(ys, xs, orders + [q], WithAll(acc, q))
  {
    UnionStep(ys, orders, q);
    GoesMore(orders, xs, q);
  }

  lemma {:induction false} JoinsAll(ys: seq<Answer>, xs: seq<Source>, orders: seq<seq<bytes>>, acc: SetState)
    requires Joins(ys, xs, orders, acc) && |orders| == |ys|
    ensures Goes(orders, xs) && ClusterUnionBy(ys, orders) == Members(acc.members)
  {
    assert ys[..|ys|] == ys && xs[..|xs|] == xs;
  }

  lemma {:induction false} UnionFails(ys: seq<Answer>, xs: seq<Source>, walked: seq<seq<bytes>>, acc: SetState)
      returns (orders: seq<seq<bytes>>)
    requires Joins(ys, xs, walked, acc) && |walked| < |ys| && ys[|walked|] == WrongType
    ensures Goes(orders, xs) && ClusterUnionBy(ys, orders) == WrongType
  {
    var rest := GoesOn(walked, xs);
    orders := walked + rest;
    var i := |walked|;
    UnionStep(ys, walked, rest[0]);
    assert orders[..i + 1] == walked + [rest[0]];
    UnionEnds(ys, orders, i + 1);
  }

  /** A command on one key: what it makes of the value, and its reply. */
  type KeyCommand = Option<Value> -> (Option<Value>, Resp.Reply)

  class Cluster {
    const hash: Ring.Hash
    /** The names of the nodes, as one of them lists them. */
    const nodes: seq<bytes>
    const pick: bytes -> bytes
    /** The contents of every node. */
    var shelves: map<bytes, Shelf>
    /** The one key space that the cluster stands for. */
    ghost var one: Shelf

    ghost predicate Valid()
      reads this
    {
      Placed(shelves, pick) && IsOne(shelves, pick, one) && forall k :: Ring.Owns(hash, nodes, k, pick(k))
    }

    constructor (hash: Ring.Hash, nodes: seq<bytes>, pick: bytes -> bytes)
      requires forall k :: Ring.Owns(hash, nodes, k, pick(k))
      ensures Valid() && one == map[] && this.hash == hash && this.nodes == nodes && this.pick == pick
    {
      this.hash := hash;
      this.nodes := nodes;
      this.pick := pick;
      shelves := map n | n in nodes :: map[];
      one := map[];
    }

    /** A node that lists the names in another order sends every key to the same owner, when no two names collide. */
    method PickNode(listing: seq<bytes>, key: bytes) returns (n: bytes)
      requires Valid() && Ring.NoCollision(hash, nodes) && multiset(listing) == multiset(nodes)
      ensures n == pick(key)
    {
      var ring := new Ring.NodeMap(hash);
      ring.AddNodes(listing);
      assert ring.added == listing;
      Ring.ListingsAgree(hash, nodes, listing, key, pick(key));
      assert Ring.Member(listing, pick(key));
      n := ring.PickNode(key);
      Ring.OwnerUnique(hash, listing, key, n, pick(key));
    }

    /** relayExec: run here, or there when the line arrives, and have the reply carried over. */
    method RelayExec(self: bytes, key: bytes, line: seq<bytes>, f: KeyCommand) returns (r: Resp.Reply)
      requires Valid() && (pick(key) != self ==> IsLine(line))
      modifies this
      ensures Valid()
      ensures var (v, answer) := f(Find(old(one), key));
              if pick(key) == self then one == Updated(old(one), key, v) && r == answer
              else if GetsThrough(line) then one == Updated(old(one), key, v) && r == Carried(answer)
              else one == old(one) && r == Resp.Error(TIMED_OUT)
    {
      var n := pick(key);
      assert Find(one, key) == Find(shelves[n], key);
      if n != self {
        var received := Deliver(line);
        if !received {
          return Resp.Error(TIMED_OUT);
        }
      }
      var (v, answer) := f(Find(shelves[n], key));
      OneStore(shelves, pick, one, key, v);
      shelves := shelves[n := Updated(shelves[n], key, v)];
      one := Updated(one, key, v);
      r := if n == self then answer else Carried(answer);
    }

    /** defaultFunc: a command on one key is run where the key belongs; without a key it panics. */
    method DefaultFunc(self: bytes, line: seq<bytes>, f: KeyCommand) returns (r: Resp.Reply)
      requires Valid() && IsLine(line)
      modifies this
      ensures Valid()
      ensures if |line| == 1 then one == old(one) && r == Resp.Error(UNKNOWN)
              else
                var (v, answer) := f(Find(old(one), line[1]));
                if pick(line[1]) == self then one == Updated(old(one), line[1], v) && r == answer
                else if GetsThrough(line) then one == Updated(old(one), line[1], v) && r == Carried(answer)
                else one == old(one) && r == Resp.Error(TIMED_OUT)
    {
      if |line| == 1 {
        return Resp.Error(UNKNOWN);
      }
      r := RelayExec(self, line[1], line, f);
    }

    /** What the router can ask for and get: sources on other nodes have members that a reply can carry. */
    ghost predicate CanAsk(self: bytes, key: bytes)
      reads this
    {
      pick(key) != self ==> Sent(key) && CleanSet(MembersOf(SourceOf(one, key)))
    }

    ghost predicate CanAskAll(self: bytes, names: seq<bytes>)
      reads this
    {
      forall i :: 0 <= i < |names| ==> CanAsk(self, names[i])
    }

    /** SMEMBERS of one key, as the router sees it. */
    method SMembers(self: bytes, key: bytes) returns (r: Resp.Reply)
      requires Valid() && CanAsk(self, key)
      ensures Reads(r, Seen(SourceOf(one, key), pick(key) != self))
    {
      var n := pick(key);
      assert Find(one, key) == Find(shelves[n], key);
      var answer := SMembersOn(shelves[n], key);
      if n == self {
        return answer;
      }
      GetsThroughExactly([SMEMBERS, key]);
      var received := Deliver([SMEMBERS, key]);
      ghost var x := SourceOf(one, key);
      if x == Wrong {
        WrongTypeText();
        ErrorCarried(WRONG_TYPE);
        ArrivesIs(answer, answer);
      } else {
        ghost var q :| answer == Resp.MultiBulk(Resp.Strings(q)) && Lists(q, MembersOf(x));
        ListClean(q, MembersOf(x));
        ArrayCarried(q);
        ArrivesIs(answer, if q == [] then Resp.EmptyMultiBulk else answer);
      }
      r := if received then Carried(answer) else Resp.Error(TIMED_OUT);
    }

    /** execSMembers: the members in whatever order. */
    method SMembersOn(s: Shelf, key: bytes) returns (r: Resp.Reply)
      ensures Reads(r, Seen(SourceOf(s, key), false))
    {
      if key !in s {
        assert Lists([], MembersOf(SourceOf(s, key)));
        return Resp.MultiBulk(Resp.Strings([]));
      }
      if !s[key].SetOf? {
        return Resp.Error(WRONG_TYPE);
      }
      var q := ListOf(s[key].held.members);
      return Resp.MultiBulk(Resp.Strings(q));
    }

    /** SMEMBERS of one key, sorted by the type of its reply; an array is taken apart. */
    method Ask(self: bytes, key: bytes) returns (a: Answer, q: seq<bytes>, reply: Resp.Reply)
      requires Valid() && CanAsk(self, key)
      ensures a == Seen(SourceOf(one, key), pick(key) != self) && Reads(reply, a) && InOrder(q, a)
    {
      reply := SMembers(self, key);
      a, q := Sort(reply, Seen(SourceOf(one, key), pick(key) != self));
    }

    method Sort(reply: Resp.Reply, ghost seen: Answer) returns (a: Answer, q: seq<bytes>)
      requires Reads(reply, seen) && seen != Unknown
      ensures a == seen && InOrder(q, a)
    {
      if reply.MultiBulk? {
        ghost var p :| reply.args == Resp.Strings(p) && Lists(p, seen.s);
        q := ValuesIn(reply.args, p);
        var m := Collect(q);
        a := Members(m);
      } else if reply.Error? {
        return WrongType, [];
      } else {
        return EmptyArray, [];
      }
    }

    /** What the router sees of all sources. */
    ghost function View(self: bytes, names: seq<bytes>): (ys: seq<Answer>)
      reads this
      ensures |ys| == |names|
    {
      AllSeen(Sources(one, names), Away(pick, self, names))
    }

    method ArrayOf(s: set<bytes>) returns (r: Resp.Reply)
      ensures Reads(r, Members(s)) && r.MultiBulk?
    {
      var q := ListOf(s);
      return Resp.MultiBulk(Resp.Strings(q));
    }

    /** setUnionFunc: what one node answers when it goes through the sources in the orders of the replies. */
    method SetUnion(self: bytes, names: seq<bytes>) returns (r: Resp.Reply, ghost orders: seq<seq<bytes>>)
      requires Valid() && CanAskAll(self, names)
      ensures names == [] ==> r == Resp.Error(ArgNumText([115, 117, 110, 105, 111, 110]))
      ensures names != [] ==> Goes(orders, Sources(one, names)) && Reads(r, UnionBy(Sources(one, names), orders))
      ensures names != [] && Plain(Sources(one, names)) ==>
                Reads(r, if AllSets(Sources(one, names)) then Members(InAny(Sources(one, names))) else WrongType)
    {
      if |names| == 0 {
        return Resp.Error(ArgNumText([115, 117, 110, 105, 111, 110])), [];
      }
      ghost var xs := Sources(one, names);
      r, orders := UnionAll(self, names);
      UnionAgrees(xs, Away(pick, self, names), orders);
      if Plain(xs) { UnionIs(xs, orders); }
    }

    method UnionAll(self: bytes, names: seq<bytes>) returns (r: Resp.Reply, ghost orders: seq<seq<bytes>>)
      requires Valid() && CanAskAll(self, names)
      ensures Goes(orders, Sources(one, names)) && Reads(r, ClusterUnionBy(View(self, names), orders))
    {
      ghost var ys, xs := View(self, names), Sources(one, names);
      var result := new HS.HashSet();
      orders := [];
      for i := 0 to |names|
        invariant fresh(result) && fresh(result.intset) && result.Valid()
        invariant |orders| == i && Joins(ys, xs, orders, result.State())
      {
        assert CanAsk(self, names[i]) && ys[i] == Seen(xs[i], pick(names[i]) != self);
        var a, q, reply := Ask(self, names[i]);
        if a.WrongType? {
          orders := UnionFails(ys, xs, orders, result.State());
          return reply, orders;
        }
        JoinsMore(ys, xs, orders, result.State(), q);
        orders := orders + [q];
        if a.Members? {
          AddAll(result, q);
        }
      }
      JoinsAll(ys, xs, orders, result.State());
      r := ReplyOf(result);
    }

    /** setIntersectFunc: right exactly when no empty source of another node is overlooked. */
    method SetIntersect(self: bytes, names: seq<bytes>) returns (r: Resp.Reply)
      requires Valid() && CanAskAll(self, names)
      ensures names == [] ==> r == Resp.Error(ArgNumText([115, 105, 110, 116, 101, 114]))
      ensures names != [] ==> Reads(r, ClusterInter(View(self, names)))
      ensures var xs, away := Sources(one, names), Away(pick, self, names);
              names != [] && Stored(xs) && Plain(xs) ==>
                forall orders :: Goes(orders, xs) ==> (Tells(r, InterBy(xs, orders)) <==> InterIsRight(xs, away))
    {
      if |names| == 0 {
        return Resp.Error(ArgNumText([115, 105, 110, 116, 101, 114]));
      }
      r := IntersectAll(self, names);
      ghost var xs := Sources(one, names);
      if Stored(xs) && Plain(xs) { InterTells(r, xs, Away(pick, self, names)); }
    }

    method IntersectAll(self: bytes, names: seq<bytes>) returns (r: Resp.Reply)
      requires Valid() && CanAskAll(self, names) && names != []
      ensures Reads(r, ClusterInter(View(self, names)))
    {
      if |names| == 1 {
        r := SMembers(self, names[0]);
        return;
      }
      var g, reply := GatherSets(self, names);
      if g.Ends? {
        return reply;
      }
      var result := MeetAll(g.q);
      r := ArrayOf(result);
    }

    method GatherSets(self: bytes, names: seq<bytes>) returns (g: Gathered, r: Resp.Reply)
      requires Valid() && CanAskAll(self, names)
      ensures g == Gather(View(self, names)) && (g.Ends? ==> Reads(r, g.a))
    {
      ghost var ys := View(self, names);
      var allSets: seq<set<bytes>> := [];
      for i := 0 to |names|
        invariant Gather(ys[..i]) == Sets(allSets)
      {
        GatherStep(ys, i, allSets);
        assert CanAsk(self, names[i]);
        var a, _, reply := Ask(self, names[i]);
        if a.Members? {
          if |a.s| == 0 {
            return Ends(a), reply;
          }
          allSets := allSets + [a.s];
        } else if a.WrongType? {
          return Ends(a), reply;
        }
      }
      assert ys[..|names|] == ys;
      return Sets(allSets), Resp.EmptyMultiBulk;
    }

    method MeetAll(allSets: seq<set<bytes>>) returns (result: set<bytes>)
      ensures result == Meet(allSets)
    {
      if |allSets| == 0 {
        return {};
      }
      result := allSets[0];
      for i := 1 to |allSets|
        invariant result == Meet(allSets[..i])
      {
        assert allSets[..i + 1][..i] == allSets[..i];
        result := result * allSets[i];
        if |result| == 0 {
          MeetStaysEmpty(allSets, i + 1);
          return;
        }
      }
      assert allSets[..|allSets|] == allSets;
    }

    /** setDiffFunc; its panic comes back as the unknown-error reply. Right exactly when the first source allows it. */
    method SetDiff(self: bytes, names: seq<bytes>) returns (r: Resp.Reply)
      requires Valid() && CanAskAll(self, names)
      ensures names == [] ==> r == Resp.Error(ArgNumText([115, 100, 105, 102, 102]))
      ensures names != [] ==> Reads(r, ClusterDiff(View(self, names)))
      ensures var xs, away := Sources(one, names), Away(pick, self, names);
              names != [] && Stored(xs) && Plain(xs) ==>
                forall orders :: Goes(orders, xs) ==> (Tells(r, DiffBy(xs, orders)) <==> DiffIsRight(xs, away))
    {
      if |names| == 0 {
        return Resp.Error(ArgNumText([115, 100, 105, 102, 102]));
      }
      r := DiffAll(self, names);
      ghost var xs := Sources(one, names);
      if Stored(xs) && Plain(xs) { DiffTells(r, xs, Away(pick, self, names)); }
    }

    method DiffAll(self: bytes, names: seq<bytes>) returns (r: Resp.Reply)
      requires Valid() && CanAskAll(self, names) && names != []
      ensures Reads(r, ClusterDiff(View(self, names)))
    {
      ghost var ys := View(self, names);
      var first, _, reply := Ask(self, names[0]);
      if first.WrongType? {
        return reply;
      }
      if first.EmptyArray? {
        return Resp.Error(UNKNOWN);
      }
      assert ys[0] == first && ys[1..] == View(self, names[1..]);
      if |names| == 1 {
        return reply;
      }
      r := DiffOthers(self, first.s, names[1..]);
    }

    method DiffOthers(self: bytes, base: set<bytes>, names: seq<bytes>) returns (r: Resp.Reply)
      requires Valid() && CanAskAll(self, names)
      ensures Reads(r, ClusterDiffRest(base, View(self, names)))
    {
      ghost var ys := View(self, names);
      var result := base;
      for i := 0 to |names|
        invariant ClusterDiffRest(base, ys) == ClusterDiffRest(result, ys[i..])
      {
        assert ys[i..][0] == ys[i] && ys[i..][1..] == ys[i + 1..];
        assert CanAsk(self, names[i]);
        var a, _, reply := Ask(self, names[i]);
        if a.Members? {
          result := result - a.s;
        } else if a.WrongType? {
          return reply;
        }
        if |result| == 0 {
          r := ArrayOf({});
          return;
        }
      }
      r := ArrayOf(result);
    }

    /** A set whose members can be sent to the destination, when that lies on another node. */
    predicate CanSend(self: bytes, dest: bytes, s: set<bytes>) {
      pick(dest) != self ==> Sent(dest) && |s| + 2 <= Resp.MAX_UINT32 && forall m :: m in s ==> Sent(m)
    }

    /** DEL and SADD for the store forms. */
    method StoreMembers(self: bytes, dest: bytes, reply: Resp.Reply, ghost a: Answer) returns (r: Resp.Reply, ghost q: seq<bytes>)
      requires Valid() && Reads(reply, a) && CanSend(self, dest, if a.Members? then a.s else {})
      modifies this
      ensures Valid() && InOrder(q, a) && (one, r) == RouterStore(old(one), dest, a, q, pick(dest) != self)
    {
      if !reply.MultiBulk? {
        return reply, [];
      }
      ghost var p :| reply.args == Resp.Strings(p) && Lists(p, a.s);
      var members := ValuesIn(reply.args, p);
      q := p;
      r := Refill(self, dest, members, a);
    }

    method Refill(self: bytes, dest: bytes, members: seq<bytes>, ghost a: Answer) returns (r: Resp.Reply)
      requires Valid() && a.Members? && Lists(members, a.s) && CanSend(self, dest, a.s)
      modifies this
      ensures Valid() && (one, r) == RouterStore(old(one), dest, a, members, pick(dest) != self)
    {
      Delete(self, dest);
      PutAfterDelete(old(one), dest, SetOf(Poured(members)));
      if |members| > 0 {
        r := SAddNew(self, dest, members, a.s);
      } else {
        r := Resp.Int(0);
      }
    }

    method Delete(self: bytes, key: bytes)
      requires Valid() && (pick(key) != self ==> Sent(key))
      modifies this
      ensures Valid() && one == old(one) - {key}
    {
      if pick(key) != self { GetsThroughExactly([DEL, key]); }
      var _ := RelayExec(self, key, [DEL, key], v => DelOn(v));
    }

    method SAddNew(self: bytes, key: bytes, q: seq<bytes>, ghost s: set<bytes>) returns (r: Resp.Reply)
      requires Valid() && key !in one && Lists(q, s) && q != [] && CanSend(self, key, s)
      modifies this
      ensures Valid()
      ensures if Reaches(key, q, pick(key) != self) then one == old(one)[key := SetOf(Poured(q))] && r == Resp.Int(|Poured(q).members|)
              else one == old(one) && r == Resp.Error(TIMED_OUT)
    {
      if pick(key) != self {
        LineOf(key, q, s);
        SizeArrives(q);
      }
      AddedToNothing(q);
      assert Find(one, key) == None;
      r := RelayExec(self, key, SAddLine(key, q), v => SAddOn(v, q));
    }

    /** setUnionStoreFunc: the union is stored as one node stores it, but an empty one is no key. */
    method SetUnionStore(self: bytes, dest: bytes, names: seq<bytes>)
        returns (r: Resp.Reply, ghost orders: seq<seq<bytes>>, ghost q: seq<bytes>)
      requires Valid() && CanAskAll(self, names) && (pick(dest) != self ==> Sent(dest) && Sendable(Sources(one, names)))
      modifies this
      ensures Valid()
      ensures names == [] ==> one == old(one) && r == Resp.Error(ArgNumText([115, 117, 110, 105, 111, 110, 115, 116, 111, 114, 101]))
      ensures names != [] ==>
                var xs := Sources(old(one), names);
                && Goes(orders, xs) && InOrder(q, UnionBy(xs, orders))
                && (one, r) == RouterStore(old(one), dest, UnionBy(xs, orders), q, pick(dest) != self)
    {
      if |names| == 0 {
        return Resp.Error(ArgNumText([115, 117, 110, 105, 111, 110, 115, 116, 111, 114, 101])), [], [];
      }
      ghost var xs := Sources(one, names);
      var reply;
      reply, orders := SetUnion(self, names);
      if pick(dest) != self { UnionIsSendable(xs, orders); }
      r, q := StoreMembers(self, dest, reply, UnionBy(xs, orders));
    }

    /** setIntersectStoreFunc: stores what setIntersectFunc answers when that is an array, and passes on anything else. */
    method SetIntersectStore(self: bytes, dest: bytes, names: seq<bytes>) returns (r: Resp.Reply, ghost q: seq<bytes>)
      requires Valid() && CanAskAll(self, names) && (pick(dest) != self ==> Sent(dest) && Sendable(Sources(one, names)))
      modifies this
      ensures Valid()
      ensures names == [] ==> one == old(one) && r == Resp.Error(ArgNumText([115, 105, 110, 116, 101, 114, 115, 116, 111, 114, 101]))
      ensures names != [] ==>
                var a := ClusterInter(AllSeen(Sources(old(one), names), Away(pick, self, names)));
                InOrder(q, a) && (one, r) == RouterStore(old(one), dest, a, q, pick(dest) != self)
    {
      if |names| == 0 {
        return Resp.Error(ArgNumText([115, 105, 110, 116, 101, 114, 115, 116, 111, 114, 101])), [];
      }
      ghost var a := ClusterInter(View(self, names));
      var reply := SetIntersect(self, names);
      InterWithin(Sources(one, names), Away(pick, self, names));
      if a.Members? { SubsetSize(a.s, InAny(Sources(one, names))); }
      r, q := StoreMembers(self, dest, reply, a);
    }

    method SetDiffStore(self: bytes, dest: bytes, names: seq<bytes>) returns (r: Resp.Reply, ghost q: seq<bytes>)
      requires Valid() && CanAskAll(self, names) && (pick(dest) != self ==> Sent(dest) && Sendable(Sources(one, names)))
      modifies this
      ensures Valid()
      ensures names == [] ==> one == old(one) && r == Resp.Error(ArgNumText([115, 100, 105, 102, 102, 115, 116, 111, 114, 101]))
      ensures names != [] ==>
                var a := ClusterDiff(AllSeen(Sources(old(one), names), Away(pick, self, names)));
                InOrder(q, a) && (one, r) == RouterStore(old(one), dest, a, q, pick(dest) != self)
    {
      if |names| == 0 {
        return Resp.Error(ArgNumText([115, 100, 105, 102, 102, 115, 116, 111, 114, 101])), [];
      }
      ghost var a := ClusterDiff(View(self, names));
      var reply := SetDiff(self, names);
      DiffWithin(Sources(one, names), Away(pick, self, names));
      if a.Members? { SubsetSize(a.s, InAny(Sources(one, names))); }
      r, q := StoreMembers(self, dest, reply, a);
    }

    /** DEL of some keys on the node that owns them all. */
    method DelOnNode(self: bytes, n: bytes, keys: seq<bytes>) returns (r: Resp.Reply)
      requires Valid() && n in shelves && IsLine([DEL] + keys) && forall k :: k in keys ==> pick(k) == n
      modifies this
      ensures Valid()
      ensures if n == self || GetsThrough([DEL] + keys)
              then one == old(one) - Elements(keys) && r == Resp.Int(|Elements(keys) * old(one).Keys|)
              else one == old(one) && r == Resp.Error(TIMED_OUT)
    {
      if n != self {
        var received := Deliver([DEL] + keys);
        if !received {
          return Resp.Error(TIMED_OUT);
        }
      }
      CountArrives(keys, one.Keys);
      var count := ExecDel(n, keys);
      r := if n == self then Resp.Int(count) else Carried(Resp.Int(count));
    }

    method ExecDel(n: bytes, keys: seq<bytes>) returns (count: nat)
      requires Valid() && n in shelves && forall k :: k in keys ==> pick(k) == n
      modifies this
      ensures Valid() && one == old(one) - Elements(keys) && count == |Elements(keys) * old(one).Keys|
    {
      ghost var gone := Elements(keys);
      OneDelete(shelves, pick, one, n, gone);
      count := |Elements(keys) * shelves[n].Keys|;
      shelves := shelves[n := shelves[n] - Elements(keys)];
      one := one - gone;
    }

    /**
     delFunc: keys grouped by owner, a DEL for each node, and the sum of the counts; a repeated key counts once. A DEL
     that is lost, for an empty key in front of another key of the same node, deletes nothing and makes the reply an error.
     */
    method DelFunc(self: bytes, names: seq<bytes>) returns (r: Resp.Reply)
      requires Valid() && IsLine([DEL] + names)
      modifies this
      ensures Valid()
      ensures names == [] ==> one == old(one) && r == Resp.Error(ArgNumText([100, 101, 108]))
      ensures names != [] && !Loses(names, pick, self) ==>
                one == old(one) - Elements(names) && r == Resp.Int(|Elements(names) * old(one).Keys|)
      ensures Loses(names, pick, self) ==>
                && one == old(one) - (set k | k in names && pick(k) != pick([]))
                && r == Resp.Error(DELETE_FAILED + TIMED_OUT)
    {
      if |names| == 0 {
        OneIsNotLost(names, pick, self);
        return Resp.Error(ArgNumText([100, 101, 108]));
      }
      if |names| == 1 {
        assert Find(one, names[0]) == Find(shelves[pick(names[0])], names[0]);
        GetsThroughExactly([DEL] + names);
        OneIsNotLost(names, pick, self);
        r := DelOnNode(self, pick(names[0]), names);
        return;
      }
      var groups := GroupKeys(names, pick);
      GoneIs(names, pick, self);
      r := DelGroups(self, names, groups);
    }

    method DelGroups(self: bytes, names: seq<bytes>, groups: map<bytes, seq<bytes>>) returns (r: Resp.Reply)
      requires Valid() && IsLine([DEL] + names) && (forall k :: k in names ==> pick(k) in groups)
      requires forall n :: n in groups ==> groups[n] == Share(names, pick, n) != []
      modifies this
      ensures Valid() && one == old(one) - Gone(names, pick, self)
      ensures r == if Loses(names, pick, self) then Resp.Error(DELETE_FAILED + TIMED_OUT)
                   else Resp.Int(|Gone(names, pick, self) * old(one).Keys|)
    {
      var deleted, failed, done := DelLoop(self, names, groups);
      GoneAtLast(names, pick, self, groups.Keys, done, failed);
      r := if failed then Resp.Error(DELETE_FAILED + TIMED_OUT) else Resp.Int(deleted);
    }

    method DelLoop(self: bytes, names: seq<bytes>, groups: map<bytes, seq<bytes>>)
        returns (deleted: int, failed: bool, ghost done: set<bytes>)
      requires Valid() && IsLine([DEL] + names) && forall n :: n in groups ==> groups[n] == Share(names, pick, n) != []
      modifies this
      ensures Valid() && Served(groups.Keys, {}, LostNodes(names, pick, self), done, failed)
      ensures one == old(one) - OnNodes(Elements(names), pick, done)
      ensures deleted == |OnNodes(Elements(names), pick, done) * old(one).Keys|
    {
      ghost var c := one;
      var rest := groups.Keys;
      deleted, failed, done := 0, false, {};
      assert OnNodes(Elements(names), pick, {}) == {};
      while rest != {}
        invariant Valid() && Served(groups.Keys, rest, LostNodes(names, pick, self), done, failed)
        invariant one == c - OnNodes(Elements(names), pick, done) && deleted == |OnNodes(Elements(names), pick, done) * c.Keys|
        decreases |rest|
      {
        var n :| n in rest;
        ServedMore(groups.Keys, rest, LostNodes(names, pick, self), done, failed, n);
        var reply := DelShare(self, names, groups[n], n, c, done);
        rest := rest - {n};
        if reply.Error? {
          failed := true;
        } else {
          deleted := deleted + reply.code;
          done := done + {n};
        }
      }
    }

    /** The DEL for one node's share of the names. */
    method DelShare(self: bytes, names: seq<bytes>, keys: seq<bytes>, n: bytes, ghost c: Shelf, ghost done: set<bytes>)
        returns (r: Resp.Reply)
      requires Valid() && IsLine([DEL] + names) && keys == Share(names, pick, n) != [] && n !in done
      requires one == c - OnNodes(Elements(names), pick, done)
      modifies this
      ensures Valid()
      ensures if n in LostNodes(names, pick, self) then one == old(one) && r == Resp.Error(TIMED_OUT)
              else
                && one == c - OnNodes(Elements(names), pick, done + {n}) && r.Int?
                && |OnNodes(Elements(names), pick, done) * c.Keys| + r.code == |OnNodes(Elements(names), pick, done + {n}) * c.Keys|
    {
      ShareIs(names, pick, n);
      LostIs(names, pick, self, n);
      NodeOwns(names, keys, n);
      OneMoreNode(c, Elements(names), pick, done, n);
      r := DelOnNode(self, n, keys);
    }

    lemma NodeOwns(names: seq<bytes>, keys: seq<bytes>, n: bytes)
      requires Valid() && Elements(keys) == OnNodes(Elements(names), pick, {n}) && keys != []
      ensures n in shelves && forall k :: k in keys ==> pick(k) == n
    {
      forall k | k in keys ensures pick(k) == n { assert k in Elements(keys); }
      assert pick(keys[0]) in shelves;
    }

    /** renameFunc: within one node it is the RENAME of the one key space, across nodes it is refused. */
    method RenameFunc(self: bytes, src: bytes, dst: bytes) returns (r: Resp.Reply)
      requires Valid() && Sent(src) && Sent(dst)
      modifies this
      ensures Valid()
      ensures if pick(src) != pick(dst) then one == old(one) && r == Resp.Error(OTHER_NODE)
              else if pick(src) != self && src == [] then one == old(one) && r == Resp.Error(TIMED_OUT)
              else if src in old(one) then one == old(one)[dst := old(one)[src]] - {src} && r == Resp.Status(OK)
              else one == old(one) && r == Resp.Error(NO_SUCH_KEY)
    {
      if pick(src) != pick(dst) {
        return Resp.Error(OTHER_NODE);
      }
      var n := pick(src);
      assert Find(one, src) == Find(shelves[n], src);
      if n != self {
        var line := [RENAME, src, dst];
        GetsThroughExactly(line);
        var received := Deliver(line);
        if !received {
          assert src == [];
          return Resp.Error(TIMED_OUT);
        }
        assert line[1] != [];
      }
      r := RenameOn(self, n, src, dst);
    }

    method RenameOn(self: bytes, n: bytes, src: bytes, dst: bytes) returns (r: Resp.Reply)
      requires Valid() && n == pick(src) == pick(dst)
      modifies this
      ensures Valid()
      ensures if src in old(one) then one == old(one)[dst := old(one)[src]] - {src} && r == Resp.Status(OK)
              else one == old(one) && r == Resp.Error(NO_SUCH_KEY)
    {
      assert Find(one, src) == Find(shelves[n], src);
      RenameTexts();
      if src !in shelves[n] {
        return if n == self then Resp.Error(NO_SUCH_KEY) else Carried(Resp.Error(NO_SUCH_KEY));
      }
      var v := shelves[n][src];
      OneStore(shelves, pick, one, dst, Some(v));
      shelves := shelves[n := Updated(shelves[n], dst, Some(v))];
      one := Updated(one, dst, Some(v));
      OneStore(shelves, pick, one, src, None);
      shelves := shelves[n := Updated(shelves[n], src, None)];
      one := Updated(one, src, None);
      r := if n == self then Resp.Status(OK) else Carried(Resp.Status(OK));
    }
  }

  /** The names that belong to some of the nodes. */
  ghost function OnNodes(names: set<bytes>, pick: bytes -> bytes, nodes: set<bytes>): set<bytes> {
    set k | k in names && pick(k) in nodes
  }

  lemma {:induction false} OneDelete(shelves: map<bytes, Shelf>, pick: bytes -> bytes, one: Shelf, n: bytes, keys: set<bytes>)
    requires Placed(shelves, pick) && IsOne(shelves, pick, one) && n in shelves && forall k :: k in keys ==> pick(k) == n
    ensures Placed(shelves[n := shelves[n] - keys], pick) && IsOne(shelves[n := shelves[n] - keys], pick, one - keys)
    ensures keys * shelves[n].Keys == keys * one.Keys
  {
    var shelves' := shelves[n := shelves[n] - keys];
    forall k ensures pick(k) in shelves' && Find(one - keys, k) == Find(shelves'[pick(k)], k) {
      assert Find(one, k) == Find(shelves[pick(k)], k);
    }
    forall k | k in keys ensures k in shelves[n].Keys <==> k in one.Keys {
      assert Find(one, k) == Find(shelves[pick(k)], k);
    }
  }

  /** One more node's share of the keys. */
  lemma {:induction false} OneMoreNode(c: Shelf, names: set<bytes>, pick: bytes -> bytes, done: set<bytes>, n: bytes)
    requires n !in done
    ensures var gone, keys, all := OnNodes(names, pick, done), OnNodes(names, pick, {n}), OnNodes(names, pick, done + {n});
            && (c - gone) - keys == c - all
            && |all * c.Keys| == |gone * c.Keys| + |keys * (c - gone).Keys|
  {
    var gone, keys := OnNodes(names, pick, done), OnNodes(names, pick, {n});
    OnNodesSplit(names, pick, done, n);
    CountBoth(c.Keys, gone, keys);
    RemoveBoth(c, gone, keys);
  }

  lemma {:induction false} OnNodesSplit(names: set<bytes>, pick: bytes -> bytes, done: set<bytes>, n: bytes)
    requires n !in done
    ensures OnNodes(names, pick, done + {n}) == OnNodes(names, pick, done) + OnNodes(names, pick, {n})
    ensures OnNodes(names, pick, done) !! OnNodes(names, pick, {n})
  {
  }

  lemma {:induction false} CountBoth(k: set<bytes>, a: set<bytes>, b: set<bytes>)
    requires a !! b
    ensures |(a + b) * k| == |a * k| + |b * (k - a)|
  {
    assert b * (k - a) == b * k;
    assert (a + b) * k == a * k + b * k;
  }

  lemma {:induction false} RemoveBoth(c: Shelf, a: set<bytes>, b: set<bytes>)
    ensures (c - a) - b == c - (a + b) && (c - a).Keys == c.Keys - a
  {
  }

  lemma {:induction false} AtMost(names: seq<bytes>, s: set<bytes>)
    ensures |Elements(names) * s| <= |names|
  {
    SubsetSize(Elements(names) * s, Elements(names));
    ElementsAtMost(names);
  }

  lemma {:induction false} CountArrives(keys: seq<bytes>, s: set<bytes>)
    requires |keys| <= Resp.MAX_UINT32
    ensures Carried(Resp.Int(|Elements(keys) * s|)) == Resp.Int(|Elements(keys) * s|)
  {
    var count := |Elements(keys) * s|;
    AtMost(keys, s);
    IntCarried(count);
    ArrivesIs(Resp.Int(count), Resp.Int(count));
  }

  /** The names that belong to one node, in the order given. */
  function Share(names: seq<bytes>, pick: bytes -> bytes, n: bytes): seq<bytes> {
    if names == [] then []
    else
      var k := names[|names| - 1];
      Share(names[..|names| - 1], pick, n) + if pick(k) == n then [k] else []
  }

  lemma {:induction false} OneMoreName(names: set<bytes>, k: bytes, pick: bytes -> bytes, n: bytes)
    ensures OnNodes(names + {k}, pick, {n}) == OnNodes(names, pick, {n}) + if pick(k) == n then {k} else {}
  {
  }

  lemma {:induction false} ShareIs(names: seq<bytes>, pick: bytes -> bytes, n: bytes)
    ensures Elements(Share(names, pick, n)) == OnNodes(Elements(names), pick, {n}) && |Share(names, pick, n)| <= |names|
  {
    if names != [] {
      var front, k := names[..|names| - 1], names[|names| - 1];
      assert names == front + [k];
      ShareIs(front, pick, n);
      ElementsMore(front, k);
      ElementsMore(Share(front, pick, n), k);
      OneMoreName(Elements(front), k, pick, n);
    }
  }

  /** The DEL for the node of the empty key is lost on the way to it. */
  predicate Loses(names: seq<bytes>, pick: bytes -> bytes, self: bytes) {
    pick([]) != self && EmptyInFront(Share(names, pick, pick([])))
  }

  predicate EmptyInFront(keys: seq<bytes>) {
    exists i :: 0 <= i < |keys| - 1 && keys[i] == []
  }

  /** That is so exactly when the empty key stands in front of another key of the same node. */
  lemma {:induction false} LosesExactly(names: seq<bytes>, pick: bytes -> bytes, self: bytes)
    ensures Loses(names, pick, self) <==>
              pick([]) != self && exists i, j :: 0 <= i < j < |names| && names[i] == [] && pick(names[j]) == pick([])
  {
    FrontExactly(names, pick);
    assert EmptyBefore(names, pick) <==> exists i, j :: 0 <= i < j < |names| && names[i] == [] && pick(names[j]) == pick([]);
  }

  ghost predicate EmptyBefore(names: seq<bytes>, pick: bytes -> bytes) {
    exists i, j :: 0 <= i < j < |names| && names[i] == [] && pick(names[j]) == pick([])
  }

  lemma {:induction false} EmptyBeforeMore(front: seq<bytes>, k: bytes, pick: bytes -> bytes)
    ensures EmptyBefore(front + [k], pick) <==> EmptyBefore(front, pick) || ([] in front && pick(k) == pick([]))
    ensures EmptyBefore(front, pick) ==> [] in front
  {
    var names := front + [k];
    if EmptyBefore(names, pick) {
      var i, j :| 0 <= i < j < |names| && names[i] == [] && pick(names[j]) == pick([]);
      assert front[i] == [] && (j < |front| ==> front[j] == names[j]);
    }
    if EmptyBefore(front, pick) {
      var i, j :| 0 <= i < j < |front| && front[i] == [] && pick(front[j]) == pick([]);
      assert names[i] == [] && names[j] == front[j];
    }
    if [] in front && pick(k) == pick([]) {
      var i :| 0 <= i < |front| && front[i] == [];
      assert names[i] == [] && names[|front|] == k;
    }
  }

  lemma {:induction false} EmptyInFrontMore(p: seq<bytes>, k: bytes)
    ensures EmptyInFront(p + [k]) <==> [] in p
  {
    var q := p + [k];
    if [] in p {
      var i :| 0 <= i < |p| && p[i] == [];
      assert q[i] == [];
    }
    if EmptyInFront(q) {
      var i :| 0 <= i < |q| - 1 && q[i] == [];
      assert p[i] == [];
    }
  }

  lemma {:induction false} FrontExactly(names: seq<bytes>, pick: bytes -> bytes)
    ensures EmptyInFront(Share(names, pick, pick([]))) <==> EmptyBefore(names, pick)
  {
    var n := pick([]);
    if names != [] {
      var front, k := names[..|names| - 1], names[|names| - 1];
      var p := Share(front, pick, n);
      assert names == front + [k];
      FrontExactly(front, pick);
      EmptyBeforeMore(front, k, pick);
      EmptyInFrontMore(p, k);
      ShareIs(front, pick, n);
      assert [] in p <==> [] in Elements(p);
      assert [] in front <==> [] in Elements(front);
      assert pick(k) != n ==> p + [] == p;
    }
  }

  /** Of the DELs to other nodes only that one is lost. */
  lemma {:induction false} LostIs(names: seq<bytes>, pick: bytes -> bytes, self: bytes, n: bytes)
    requires IsLine([DEL] + names)
    ensures var line := [DEL] + Share(names, pick, n);
            IsLine(line) && (n == self || GetsThrough(line) <==> n !in LostNodes(names, pick, self))
  {
    var q := Share(names, pick, n);
    var line := [DEL] + q;
    ShareIs(names, pick, n);
    forall i | 0 <= i < |line| ensures Sent(line[i]) {
      if i > 0 {
        assert line[i] == q[i - 1] && q[i - 1] in Elements(q);
        var j :| 0 <= j < |names| && names[j] == line[i];
        assert ([DEL] + names)[j + 1] == names[j];
      }
    }
    GetsThroughExactly(line);
    assert EmptyInFront(q) <==> exists i :: 0 <= i < |line| - 1 && line[i] == [] by {
      if EmptyInFront(q) { var i :| 0 <= i < |q| - 1 && q[i] == []; assert line[i + 1] == []; }
      if i :| 0 <= i < |line| - 1 && line[i] == [] { assert q[i - 1] == []; }
    }
    if EmptyInFront(q) {
      var i :| 0 <= i < |q| - 1 && q[i] == [];
      assert q[i] in Elements(q);
    }
  }

  ghost function LostNodes(names: seq<bytes>, pick: bytes -> bytes, self: bytes): set<bytes> {
    if Loses(names, pick, self) then {pick([])} else {}
  }

  /** The names that are deleted in spite of the loss. */
  ghost function Gone(names: seq<bytes>, pick: bytes -> bytes, self: bytes): set<bytes> {
    set k | k in names && pick(k) !in LostNodes(names, pick, self)
  }

  lemma {:induction false} GoneIs(names: seq<bytes>, pick: bytes -> bytes, self: bytes)
    ensures !Loses(names, pick, self) ==> Gone(names, pick, self) == Elements(names)
    ensures Loses(names, pick, self) ==> Gone(names, pick, self) == set k | k in names && pick(k) != pick([])
  {
  }

  lemma {:induction false} OneIsNotLost(names: seq<bytes>, pick: bytes -> bytes, self: bytes)
    requires |names| <= 1
    ensures !Loses(names, pick, self)
  {
    ShareIs(names, pick, pick([]));
  }

  /** Of the nodes, those that are not left have deleted their names, or have not heard of it. */
  ghost predicate Served(nodes: set<bytes>, rest: set<bytes>, lost: set<bytes>, done: set<bytes>, failed: bool) {
    rest <= nodes && done == nodes - rest - lost && failed == (lost * (nodes - rest) != {})
  }

  lemma {:induction false} ServedMore(nodes: set<bytes>, rest: set<bytes>, lost: set<bytes>, done: set<bytes>, failed: bool, n: bytes)
    requires Served(nodes, rest, lost, done, failed) && n in rest
    ensures n !in done && if n in lost then Served(nodes, rest - {n}, lost, done, true)
                          else Served(nodes, rest - {n}, lost, done + {n}, failed)
  {
    assert nodes - (rest - {n}) == (nodes - rest) + {n};
    if n in lost {
      assert n in lost * (nodes - (rest - {n}));
    } else {
      assert lost * (nodes - (rest - {n})) == lost * (nodes - rest);
    }
  }

  lemma {:induction false} GoneAtLast(names: seq<bytes>, pick: bytes -> bytes, self: bytes, nodes: set<bytes>, done: set<bytes>, failed: bool)
    requires Served(nodes, {}, LostNodes(names, pick, self), done, failed) && forall k :: k in names ==> pick(k) in nodes
    ensures OnNodes(Elements(names), pick, done) == Gone(names, pick, self) && failed == Loses(names, pick, self)
  {
    if Loses(names, pick, self) {
      LosesExactly(names, pick, self);
      assert [] in names && pick([]) in LostNodes(names, pick, self) * (nodes - {});
    }
  }

  /** The keys of each node, in the order given. */
  method GroupKeys(names: seq<bytes>, pick: bytes -> bytes) returns (groups: map<bytes, seq<bytes>>)
    ensures forall k :: k in names ==> pick(k) in groups
    ensures forall n :: n in groups ==> groups[n] == Share(names, pick, n) != []
  {
    groups := map[];
    for i := 0 to |names|
      invariant forall k :: k in names[..i] ==> pick(k) in groups
      invariant forall n :: n in groups ==> groups[n] == Share(names[..i], pick, n) != []
      invariant forall n :: n !in groups ==> Share(names[..i], pick, n) == []
    {
      var k, n := names[i], pick(names[i]);
      assert names[..i + 1] == names[..i] + [k];
      ShareMore(names[..i], k, pick);
      groups := groups[n := (if n in groups then groups[n] else []) + [k]];
    }
    assert names[..|names|] == names;
  }

  lemma {:induction false} ShareMore(names: seq<bytes>, k: bytes, pick: bytes -> bytes)
    ensures forall n :: Share(names + [k], pick, n) == Share(names, pick, n) + if pick(k) == n then [k] else []
  {
    assert (names + [k])[..|names|] == names;
  }

  lemma {:induction false} RenameTexts()
    ensures Carried(Resp.Error(NO_SUCH_KEY)) == Resp.Error(NO_SUCH_KEY) && Carried(Resp.Status(OK)) == Resp.Status(OK)
  {
    assert Resp.LF !in NO_SUCH_KEY && Resp.LF !in OK;
    ErrorCarried(NO_SUCH_KEY);
    StatusCarried(OK);
    ArrivesIs(Resp.Error(NO_SUCH_KEY), Resp.Error(NO_SUCH_KEY));
    ArrivesIs(Resp.Status(OK), Resp.Status(OK));
  }

  // ----- what is sent to the destination -----

  /** Sources whose members can be sent on; a union can hold twice as many, texts and the numbers they were taken for. */
  ghost predicate Sendable(xs: seq<Source>) {
    2 * |InAny(xs)| + 2 <= Resp.MAX_UINT32 && forall m :: m in InAny(xs) ==> Sent(m)
  }

  lemma {:induction false} LineOf(dest: bytes, q: seq<bytes>, s: set<bytes>)
    requires Lists(q, s) && Sent(dest) && |s| + 2 <= Resp.MAX_UINT32 && forall m :: m in s ==> Sent(m)
    ensures IsLine(SAddLine(dest, q)) && |q| <= MAX_INT64
  {
    var line := SAddLine(dest, q);
    forall i | 0 <= i < |line| ensures Sent(line[i]) {
      if i >= 2 { assert line[i] == q[i - 2] && q[i - 2] in Elements(q); }
    }
  }

  lemma {:induction false} PutAfterDelete(s: Shelf, key: bytes, v: Value)
    ensures (s - {key})[key := v] == s[key := v]
  {
  }

  lemma {:induction false} PouredAtMost(q: seq<bytes>)
    ensures |Poured(q).members| <= |q|
  {
    if q != [] { PouredAtMost(q[..|q| - 1]); }
  }

  lemma {:induction false} SizeArrives(q: seq<bytes>)
    requires |q| <= MAX_INT64
    ensures Carried(Resp.Int(|Poured(q).members|)) == Resp.Int(|Poured(q).members|)
  {
    PouredAtMost(q);
    IntCarried(|Poured(q).members|);
    ArrivesIs(Resp.Int(|Poured(q).members|), Resp.Int(|Poured(q).members|));
  }

  lemma {:induction false} AddedToNothing(q: seq<bytes>)
    ensures SAddOn(None, q) == (Some(SetOf(Poured(q))), Resp.Int(|Poured(q).members|))
  {
  }

  lemma {:induction false} CanonSize(s: set<bytes>)
    ensures |Canon(s)| <= |s|
    decreases |s|
  {
    if s != {} {
      var m :| m in s;
      CanonSize(s - {m});
      CanonMore(s - {m}, m);
      assert s - {m} + {m} == s;
    } else {
      assert Canon(s) == {};
    }
  }

  lemma {:induction false} NumberIsSent(m: bytes)
    requires Sent(m)
    ensures Sent(Taken(true, m))
  {
    if ParseInt(m).Some? {
      var v := ParseInt(m).value;
      var n := if v < 0 then -v else v;
      FormatNatIsShort(n);
      FormatNatIsDigits(n);
    }
  }

  lemma {:induction false} WithAllWithin(x: SetState, q: seq<bytes>, s: set<bytes>)
    requires Elements(q) <= s && x.members <= s + Canon(s)
    ensures WithAll(x, q).members <= s + Canon(s)
  {
    if q != [] {
      var n := |q| - 1;
      var m := q[n];
      assert q == q[..n] + [m];
      ElementsMore(q[..n], m);
      assert m in s;
      assert Taken(true, m) in Canon(s) && Taken(false, m) == m;
      WithAllWithin(x, q[..n], s);
    }
  }

  lemma {:induction false} UnionWithin(xs: seq<Source>, orders: seq<seq<bytes>>, s: set<bytes>)
    requires Goes(orders, xs) && forall i :: 0 <= i < |xs| ==> MembersOf(xs[i]) <= s
    ensures UnionState(xs, orders).Some? ==> UnionState(xs, orders).value.members <= s + Canon(s)
  {
    if xs != [] {
      var n := |xs| - 1;
      UnionWithin(xs[..n], orders[..n], s);
      assert Lists(orders[n], MembersOf(xs[n]));
      if UnionState(xs[..n], orders[..n]).Some? { WithAllWithin(UnionState(xs[..n], orders[..n]).value, orders[n], s); }
    }
  }

  lemma {:induction false} UnionIsSendable(xs: seq<Source>, orders: seq<seq<bytes>>)
    requires Goes(orders, xs) && Sendable(xs)
    ensures var a := UnionBy(xs, orders); a.Members? ==> |a.s| + 2 <= Resp.MAX_UINT32 && forall m :: m in a.s ==> Sent(m)
  {
    var s := InAny(xs);
    forall i | 0 <= i < |xs| ensures MembersOf(xs[i]) <= s { SourceWithin(xs, i); }
    UnionWithin(xs, orders, s);
    var a := UnionBy(xs, orders);
    if a.Members? {
      CanonSize(s);
      SubsetSize(a.s, s + Canon(s));
      forall m | m in a.s ensures Sent(m) {
        if m !in s {
          var t :| t in s && m == Taken(true, t);
          NumberIsSent(t);
        }
      }
    }
  }

  function DelOn(v: Option<Value>): (Option<Value>, Resp.Reply) {
    (None, Resp.Int(if v.Some? then 1 else 0))
  }

  function SAddOn(v: Option<Value>, q: seq<bytes>): (Option<Value>, Resp.Reply) {
    if v.Some? && !v.value.SetOf? then (v, Resp.Error(WRONG_TYPE))
    else
      var was := if v.Some? then v.value.held else NO_MEMBERS;
      var now := WithAll(was, q);
      (Some(SetOf(now)), Resp.Int(|now.members| - |was.members|))
  }
}
