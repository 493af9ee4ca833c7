/**
 SUNION, SINTER and SDIFF of database/set.go on HashSets, with their store forms.

 A set is gone through with ForEach, in whatever order Go happens to take; the orders are ghost results here, and
 module SetAlgebra says what follows from them.
 */
module SetCommands {
  import opened Bytes
  import opened Collections
  import opened Decimal
  import opened Values
  import opened Pouring
  import opened SetAlgebra
  import Resp
  import HS = HashSet

  const WRONG_TYPE: bytes := [87, 82, 79, 78, 71, 32] + [84, 89, 80, 69, 32] +
    [79, 112, 101, 114, 97, 116, 105, 111, 110, 32] + [97, 103, 97, 105, 110, 115, 116, 32] + [97, 32] +
    [107, 101, 121, 32] + [104, 111, 108, 100, 105, 110, 103, 32] + [116, 104, 101, 32] +
    [119, 114, 111, 110, 103, 32] + [107, 105, 110, 100, 32] + [111, 102, 32] + [118, 97, 108, 117, 101]
  const UNKNOWN: bytes := [69, 82, 82, 32] + [117, 110, 107, 110, 111, 119, 110]

  // ----- replies -----

  ghost predicate Reads(r: Resp.Reply, a: Answer) {
    match a
    case Members(s) => exists q :: r == Resp.MultiBulk(Resp.Strings(q)) && Lists(q, s)
    case EmptyArray => r == Resp.EmptyMultiBulk
    case WrongType => r == Resp.Error(WRONG_TYPE)
    case Unknown => r == Resp.Error(UNKNOWN)
  }

  /** A reply that a client cannot tell from the given answer. */
  ghost predicate Tells(r: Resp.Reply, a: Answer) {
    exists b :: Same(a, b) && Reads(r, b)
  }

  lemma {:induction false} StringsOnce(p: seq<bytes>, q: seq<bytes>)
    requires Resp.Strings(p) == Resp.Strings(q)
    ensures p == q
  {
    forall i | 0 <= i < |p| ensures p[i] == q[i] { assert Resp.Strings(p)[i] == Resp.Strings(q)[i]; }
  }

  lemma {:induction false} ReadsOnce(r: Resp.Reply, a: Answer, b: Answer)
    requires Reads(r, a) && Reads(r, b)
    ensures a == b
  {
    if a.Members? && b.Members? {
      var p :| r == Resp.MultiBulk(Resp.Strings(p)) && Lists(p, a.s);
      var q :| r == Resp.MultiBulk(Resp.Strings(q)) && Lists(q, b.s);
      StringsOnce(p, q);
    }
    assert |WRONG_TYPE| == 66 && |UNKNOWN| == 11;
  }

  lemma {:induction false} TellsExactly(r: Resp.Reply, a: Answer, b: Answer)
    requires Reads(r, a)
    ensures Tells(r, b) <==> Same(a, b)
  {
    if c :| Same(b, c) && Reads(r, c) { ReadsOnce(r, a, c); }
  }

  // ----- what is at a key -----

  /** What getAsSet finds. */
  datatype Slot = NoKey | SetAt(h: HS.HashSet) | OtherValue

  /** The sets among the slots are the given objects, in the given states. */
  ghost predicate Shows(slots: seq<Slot>, parts: set<object>, xs: seq<Source>)
    reads parts
  {
    |xs| == |slots| && forall i :: 0 <= i < |slots| ==> ShowsAt(slots[i], parts, xs[i])
  }

  ghost predicate ShowsAt(slot: Slot, parts: set<object>, x: Source)
    reads parts
  {
    match slot
    case NoKey => x == Absent
    case SetAt(h) => h in parts && h.intset in parts && h.Valid() && x == Has(h.State())
    case OtherValue => x == Wrong
  }

  ghost function AnyOrders(xs: seq<Source>): (orders: seq<seq<bytes>>)
    ensures Goes(orders, xs)
  {
    seq(|xs|, i requires 0 <= i < |xs| => Listing(MembersOf(xs[i])))
  }

  // ----- loops over one set -----

  method AddAll(result: HS.HashSet, q: seq<bytes>)
    requires result.Valid()
    modifies result, result.intset
    ensures result.Valid() && result.State() == WithAll(old(result.State()), q)
  {
    for i := 0 to |q|
      invariant result.Valid() && result.State() == WithAll(old(result.State()), q[..i])
    {
      assert q[..i + 1][..i] == q[..i];
      var _ := result.Add(q[i]);
    }
    assert q[..|q|] == q;
  }

  method RemoveAll(result: HS.HashSet, q: seq<bytes>)
    requires result.Valid()
    modifies result, result.intset
    ensures result.Valid() && result.State() == WithoutAll(old(result.State()), q)
  {
    for i := 0 to |q|
      invariant result.Valid() && result.State() == WithoutAll(old(result.State()), q[..i])
    {
      assert q[..i + 1][..i] == q[..i];
      var _ := result.Remove(q[i]);
    }
    assert q[..|q|] == q;
  }

  method Missing(q: seq<bytes>, current: HS.HashSet) returns (toRemove: seq<bytes>)
    requires current.Valid()
    ensures Elements(toRemove) == set m | m in q && !Holds(current.State(), m)
  {
    toRemove := [];
    for i := 0 to |q|
      invariant Elements(toRemove) == set m | m in q[..i] && !Holds(current.State(), m)
    {
      assert q[..i + 1] == q[..i] + [q[i]];
      var found := current.Contains(q[i]);
      if !found {
        ElementsMore(toRemove, q[i]);
        toRemove := toRemove + [q[i]];
      }
    }
    assert q[..|q|] == q;
  }

  /** Only the members that the current set has stay in the result. */
  method KeepThose(result: HS.HashSet, current: HS.HashSet)
    requires result.Valid() && current.Valid() && result != current && result.intset != current.intset
    modifies result, result.intset
    ensures result.Valid() && result.State() == KeepCommon(old(result.State()), current.State())
  {
    var q := result.Members();
    var toRemove := Missing(q, current);
    result.StateIsSound();
    KeptAre(result.State(), current.State(), q, toRemove);
    RemoveAll(result, toRemove);
  }

  lemma {:induction false} KeptAre(x: SetState, current: SetState, q: seq<bytes>, toRemove: seq<bytes>)
    requires Sound(x) && Elements(q) == x.members && Elements(toRemove) == set m | m in q && !Holds(current, m)
    ensures WithoutAll(x, toRemove) == KeepCommon(x, current)
  {
    forall m ensures m in q <==> m in x.members { assert m in q <==> m in Elements(q); }
    FaithfulRemoves(x, toRemove);
    assert x.members - Elements(toRemove) == KeepCommon(x, current).members;
  }

  method ReplyOf(result: HS.HashSet) returns (r: Resp.Reply)
    requires result.Valid()
    ensures Reads(r, Members(result.Model()))
  {
    var q := result.Members();
    r := Resp.MultiBulk(Resp.Strings(q));
  }

  // ----- the three commands -----

  /** A source of another type ends the union for good. */
  lemma {:induction false} UnionSticks(xs: seq<Source>, orders: seq<seq<bytes>>, i: nat)
    requires |orders| == |xs| && i <= |xs| && UnionState(xs[..i], orders[..i]).None?
    ensures UnionState(xs, orders).None?
    decreases |xs|
  {
    if i == |xs| {
      assert xs[..i] == xs && orders[..i] == orders;
    } else {
      var n := |xs| - 1;
      assert xs[..n][..i] == xs[..i] && orders[..n][..i] == orders[..i];
      UnionSticks(xs[..n], orders[..n], i);
    }
  }

  /** execSUnion: the members of each set are added to a new one. */
  method ExecSUnion(slots: seq<Slot>, ghost parts: set<object>, ghost xs: seq<Source>)
      returns (r: Resp.Reply, ghost orders: seq<seq<bytes>>)
    requires Shows(slots, parts, xs)
    ensures Goes(orders, xs) && Reads(r, UnionBy(xs, orders))
    ensures Plain(xs) ==> Reads(r, if AllSets(xs) then Members(InAny(xs)) else WrongType)
  {
    r, orders := UnionLoop(slots, parts, xs);
    if Plain(xs) { UnionIs(xs, orders); }
  }

  method UnionLoop(slots: seq<Slot>, ghost parts: set<object>, ghost xs: seq<Source>)
      returns (r: Resp.Reply, ghost orders: seq<seq<bytes>>)
    requires Shows(slots, parts, xs)
    ensures Goes(orders, xs) && Reads(r, UnionBy(xs, orders))
  {
    var result := new HS.HashSet();
    orders := [];
    for i := 0 to |slots|
      invariant fresh(result) && fresh(result.intset) && result.Valid() && Shows(slots, parts, xs)
      invariant |orders| == i && Goes(orders, xs[..i]) && UnionState(xs[..i], orders) == Some(result.State())
    {
      var ok, q := AddFrom(slots[i], parts, xs[i], result);
      if !ok {
        orders := WrongSourceEnds(xs, orders);
        return Resp.Error(WRONG_TYPE), orders;
      }
      OneMoreSource(xs, orders, q);
      orders := orders + [q];
    }
    assert xs[..|slots|] == xs;
    r := ReplyOf(result);
  }

  lemma {:induction false} WrongSourceEnds(xs: seq<Source>, walked: seq<seq<bytes>>) returns (orders: seq<seq<bytes>>)
    requires |walked| < |xs| && Goes(walked, xs[..|walked|]) && xs[|walked|] == Wrong
    ensures Goes(orders, xs) && UnionState(xs, orders).None?
  {
    var i := |walked|;
    var rest := GoesOn(walked, xs);
    orders := walked + rest;
    assert xs[..i + 1][..i] == xs[..i] && orders[..i + 1][..i] == walked;
    UnionSticks(xs, orders, i + 1);
  }

  lemma {:induction false} OneMoreSource(xs: seq<Source>, orders: seq<seq<bytes>>, q: seq<bytes>)
    requires |orders| < |xs| && Goes(orders, xs[..|orders|]) && UnionState(xs[..|orders|], orders).Some?
    requires xs[|orders|] != Wrong && Lists(q, MembersOf(xs[|orders|]))
    ensures Goes(orders + [q], xs[..|orders| + 1])
    ensures UnionState(xs[..|orders| + 1], orders + [q]) == Some(WithAll(UnionState(xs[..|orders|], orders).value, q))
  {
    var i := |orders|;
    GoesMore(orders, xs, q);
    assert xs[..i + 1][..i] == xs[..i] && (orders + [q])[..i] == orders;
  }

  /** The members of one source are added to the result. */
  method AddFrom(slot: Slot, ghost parts: set<object>, ghost x: Source, result: HS.HashSet)
      returns (ok: bool, ghost q: seq<bytes>)
    requires ShowsAt(slot, parts, x) && result.Valid() && result !in parts && result.intset !in parts
    modifies result, result.intset
    ensures result.Valid() && result.State() == WithAll(old(result.State()), q)
    ensures ok == (x != Wrong) && Lists(q, MembersOf(x))
  {
    match slot
    case NoKey => return true, [];
    case OtherValue => return false, [];
    case SetAt(h) =>
      var members := h.Members();
      AddAll(result, members);
      return true, members;
  }

  /** execSInter: a copy of the first set, from which each further set takes what it does not have. */
  method ExecSInter(slots: seq<Slot>, ghost parts: set<object>, ghost xs: seq<Source>)
      returns (r: Resp.Reply, ghost orders: seq<seq<bytes>>)
    requires Shows(slots, parts, xs)
    ensures Goes(orders, xs) && Reads(r, InterBy(xs, orders))
    ensures Plain(xs) ==> Reads(r, Inter(xs))
  {
    r, orders := InterAll(slots, parts, xs);
    if Plain(xs) { InterByIs(xs, orders); }
  }

  method InterAll(slots: seq<Slot>, ghost parts: set<object>, ghost xs: seq<Source>)
      returns (r: Resp.Reply, ghost orders: seq<seq<bytes>>)
    requires Shows(slots, parts, xs)
    ensures Goes(orders, xs) && Reads(r, InterBy(xs, orders))
  {
    orders := AnyOrders(xs);
    if |slots| == 0 || slots[0].NoKey? {
      return Resp.EmptyMultiBulk, orders;
    }
    var result := new HS.HashSet();
    var ok, q := AddFrom(slots[0], parts, xs[0], result);
    if !ok {
      return Resp.Error(WRONG_TYPE), orders;
    }
    orders := orders[0 := q];
    r := InterLoop(slots, parts, xs, result);
  }

  method InterLoop(slots: seq<Slot>, ghost parts: set<object>, ghost xs: seq<Source>, result: HS.HashSet) returns (r: Resp.Reply)
    requires Shows(slots, parts, xs) && slots != [] && result.Valid() && result !in parts && result.intset !in parts
    modifies result, result.intset
    ensures Reads(r, InterRestBy(old(result.State()), xs[1..]))
  {
    for i := 1 to |slots|
      invariant result.Valid() && Shows(slots, parts, xs)
      invariant InterRestBy(old(result.State()), xs[1..]) == InterRestBy(result.State(), xs[i..])
    {
      assert xs[i..][0] == xs[i] && xs[i..][1..] == xs[i + 1..] && ShowsAt(slots[i], parts, xs[i]);
      match slots[i]
      case NoKey => return Resp.EmptyMultiBulk;
      case OtherValue => return Resp.Error(WRONG_TYPE);
      case SetAt(h) =>
        KeepThose(result, h);
        var n := result.Len();
        if n == 0 {
          return Resp.EmptyMultiBulk;
        }
    }
    r := ReplyOf(result);
  }

  /** execSDiff: a copy of the first set, from which the members of each further set are removed. */
  method ExecSDiff(slots: seq<Slot>, ghost parts: set<object>, ghost xs: seq<Source>)
      returns (r: Resp.Reply, ghost orders: seq<seq<bytes>>)
    requires Shows(slots, parts, xs) && slots != []
    ensures Goes(orders, xs) && Reads(r, DiffBy(xs, orders))
    ensures Plain(xs) ==> Reads(r, Diff(xs))
  {
    r, orders := DiffAll(slots, parts, xs);
    if Plain(xs) { DiffByIs(xs, orders); }
  }

  method DiffAll(slots: seq<Slot>, ghost parts: set<object>, ghost xs: seq<Source>)
      returns (r: Resp.Reply, ghost orders: seq<seq<bytes>>)
    requires Shows(slots, parts, xs) && slots != []
    ensures Goes(orders, xs) && Reads(r, DiffBy(xs, orders))
  {
    orders := AnyOrders(xs);
    if slots[0].NoKey? {
      return Resp.EmptyMultiBulk, orders;
    }
    var result := new HS.HashSet();
    var ok, q := AddFrom(slots[0], parts, xs[0], result);
    if !ok {
      return Resp.Error(WRONG_TYPE), orders;
    }
    ghost var rest;
    r, rest := DiffLoop(slots, parts, xs, result);
    orders := [q] + rest;
    assert orders[1..] == rest;
    forall i | 0 <= i < |xs| ensures Lists(orders[i], MembersOf(xs[i])) { assert i > 0 ==> orders[i] == rest[i - 1] && xs[1..][i - 1] == xs[i]; }
  }

  /** What is left after the first sources decides the rest, in whatever orders the others are gone through. */
  ghost predicate Leaves(first: SetState, ys: seq<Source>, walked: seq<seq<bytes>>, left: SetState) {
    && |walked| <= |ys|
    && Goes(walked, ys[..|walked|])
    && forall rest: seq<seq<bytes>> :: |walked + rest| == |ys| ==>
         DiffRestBy(first, ys, walked + rest) == DiffRestBy(left, ys[|walked|..], rest)
  }

  lemma {:induction false} NothingLeft(first: SetState, ys: seq<Source>)
    ensures Leaves(first, ys, [], first)
  {
    assert ys[0..] == ys;
    forall rest: seq<seq<bytes>> | |[] + rest| == |ys| ensures DiffRestBy(first, ys, [] + rest) == DiffRestBy(first, ys, rest) {
      assert [] + rest == rest;
    }
  }

  lemma {:induction false} GoesMore(walked: seq<seq<bytes>>, xs: seq<Source>, q: seq<bytes>)
    requires |walked| < |xs| && Goes(walked, xs[..|walked|]) && Lists(q, MembersOf(xs[|walked|]))
    ensures Goes(walked + [q], xs[..|walked| + 1])
  {
    var i := |walked|;
    forall j | 0 <= j <= i ensures Lists((walked + [q])[j], MembersOf(xs[..i + 1][j])) {
      if j < i { assert xs[..i][j] == xs[..i + 1][j]; }
    }
  }

  /** The orders of the sources that are not gone through do not matter. */
  lemma {:induction false} GoesOn(walked: seq<seq<bytes>>, xs: seq<Source>) returns (rest: seq<seq<bytes>>)
    requires |walked| <= |xs| && Goes(walked, xs[..|walked|])
    ensures Goes(rest, xs[|walked|..]) && Goes(walked + rest, xs)
  {
    var i := |walked|;
    rest := AnyOrders(xs[i..]);
    forall j | 0 <= j < |xs| ensures Lists((walked + rest)[j], MembersOf(xs[j])) {
      assert if j < i then (walked + rest)[j] == walked[j] && xs[..i][j] == xs[j]
             else (walked + rest)[j] == rest[j - i] && xs[i..][j - i] == xs[j];
    }
  }

  lemma {:induction false} LeavesMore(first: SetState, ys: seq<Source>, walked: seq<seq<bytes>>, left: SetState, q: seq<bytes>)
    requires Leaves(first, ys, walked, left) && |walked| < |ys| && ys[|walked|] != Wrong && Lists(q, MembersOf(ys[|walked|]))
    requires ys[|walked|].Has? ==> WithoutAll(left, q).members != {}
    ensures Leaves(first, ys, walked + [q], WithoutAll(left, q))
  {
    var i, more := |walked|, walked + [q];
    GoesMore(walked, ys, q);
    assert ys[i..][0] == ys[i] && ys[i..][1..] == ys[|more|..];
    forall rest: seq<seq<bytes>> | |more + rest| == |ys|
      ensures DiffRestBy(first, ys, more + rest) == DiffRestBy(WithoutAll(left, q), ys[|more|..], rest)
    {
      assert more + rest == walked + ([q] + rest) && ([q] + rest)[1..] == rest;
    }
  }

  /** A source of another type, or one that leaves nothing, ends the difference. */
  lemma {:induction false} DiffEnds(first: SetState, ys: seq<Source>, walked: seq<seq<bytes>>, left: SetState, q: seq<bytes>)
      returns (orders: seq<seq<bytes>>)
    requires Leaves(first, ys, walked, left) && |walked| < |ys| && Lists(q, MembersOf(ys[|walked|]))
    ensures Goes(orders, ys)
    ensures ys[|walked|] == Wrong ==> DiffRestBy(first, ys, orders) == WrongType
    ensures ys[|walked|].Has? && WithoutAll(left, q).members == {} ==> DiffRestBy(first, ys, orders) == EmptyArray
  {
    var i := |walked|;
    GoesMore(walked, ys, q);
    var rest := GoesOn(walked + [q], ys);
    orders := walked + [q] + rest;
    assert orders == walked + ([q] + rest) && ys[i..][0] == ys[i];
  }

  lemma {:induction false} DiffDone(first: SetState, ys: seq<Source>, walked: seq<seq<bytes>>, left: SetState)
    requires Leaves(first, ys, walked, left) && |walked| == |ys|
    ensures Goes(walked, ys) && DiffRestBy(first, ys, walked) == Members(left.members)
  {
    assert walked + [] == walked && ys[..|ys|] == ys;
  }

  method DiffLoop(slots: seq<Slot>, ghost parts: set<object>, ghost xs: seq<Source>, result: HS.HashSet)
      returns (r: Resp.Reply, ghost orders: seq<seq<bytes>>)
    requires Shows(slots, parts, xs) && slots != [] && result.Valid() && result !in parts && result.intset !in parts
    modifies result, result.intset
    ensures Goes(orders, xs[1..]) && Reads(r, DiffRestBy(old(result.State()), xs[1..], orders))
  {
    ghost var first, ys := result.State(), xs[1..];
    orders := [];
    NothingLeft(first, ys);
    for i := 1 to |slots|
      invariant result.Valid() && Shows(slots, parts, xs)
      invariant |orders| == i - 1 && Leaves(first, ys, orders, result.State())
    {
      ghost var left := result.State();
      assert ys[i - 1] == xs[i] && ShowsAt(slots[i], parts, xs[i]);
      var ok, q := RemoveFrom(slots[i], parts, xs[i], result);
      var n := result.Len();
      if !ok || (slots[i].SetAt? && n == 0) {
        orders := DiffEnds(first, ys, orders, left, q);
        return if ok then Resp.EmptyMultiBulk else Resp.Error(WRONG_TYPE), orders;
      }
      LeavesMore(first, ys, orders, left, q);
      orders := orders + [q];
    }
    DiffDone(first, ys, orders, result.State());
    r := ReplyOf(result);
  }

  /** The members of one source are removed from the result. */
  method RemoveFrom(slot: Slot, ghost parts: set<object>, ghost x: Source, result: HS.HashSet)
      returns (ok: bool, ghost q: seq<bytes>)
    requires ShowsAt(slot, parts, x) && result.Valid() && result !in parts && result.intset !in parts
    modifies result, result.intset
    ensures result.Valid() && result.State() == WithoutAll(old(result.State()), q)
    ensures ok == (x != Wrong) && Lists(q, MembersOf(x))
  {
    match slot
    case NoKey => return true, [];
    case OtherValue => return false, [];
    case SetAt(h) =>
      var members := h.Members();
      RemoveAll(result, members);
      return true, members;
  }

  // ----- the store forms -----

  /** The order in which the members stand in a reply. */
  ghost predicate InOrder(q: seq<bytes>, a: Answer) {
    if a.Members? then Lists(q, a.s) else q == []
  }

  /**
   What a store form puts at its destination, if anything, and what it replies. The answer of the plain form is poured
   into a new set once more, in the order `q` of its reply; `empty` is for the empty array that is a reply of its own.
   */
  function NodeStores(a: Answer, q: seq<bytes>, empty: Resp.Reply): (Option<SetState>, Resp.Reply) {
    match a
    case Members(_) => (Some(Poured(q)), Resp.Int(|Poured(q).members|))
    case EmptyArray => (None, empty)
    case WrongType => (None, Resp.Error(WRONG_TYPE))
    case Unknown => (None, Resp.Error(UNKNOWN))
  }

  ghost function StateOf(h: HS.HashSet?): Option<SetState>
    reads if h == null then {} else {h, h.intset}
    requires h != null ==> h.Valid()
  {
    if h == null then None else Some(h.State())
  }

  method StoreReply(reply: Resp.Reply, empty: Resp.Reply, ghost a: Answer)
      returns (r: Resp.Reply, newSet: HS.HashSet?, ghost q: seq<bytes>)
    requires Reads(reply, a)
    ensures (newSet != null ==> newSet.Valid()) && InOrder(q, a) && (StateOf(newSet), r) == NodeStores(a, q, empty)
  {
    q := [];
    if reply.Error? {
      return reply, null, [];
    }
    if !reply.MultiBulk? {
      return empty, null, [];
    }
    ghost var p :| reply.args == Resp.Strings(p) && Lists(p, a.s);
    var members := ValuesIn(reply.args, p);
    var h := new HS.HashSet();
    AddAll(h, members);
    var n := h.Len();
    return Resp.Int(n), h, p;
  }

  method ValuesIn(args: seq<Option<bytes>>, ghost p: seq<bytes>) returns (q: seq<bytes>)
    requires args == Resp.Strings(p)
    ensures q == p
  {
    q := [];
    for i := 0 to |args|
      invariant q == p[..i]
    {
      q := q + [args[i].value];
    }
  }

  ghost function SetsOf(xs: seq<Source>): (r: seq<set<bytes>>)
    ensures |r| == |xs| && forall i :: 0 <= i < |xs| ==> r[i] == MembersOf(xs[i])
  {
    seq(|xs|, i requires 0 <= i < |xs| => MembersOf(xs[i]))
  }

  /** The union is the sources poured into one new set, one after the other. */
  lemma {:induction false} UnionIsPoured(xs: seq<Source>, orders: seq<seq<bytes>>)
    requires |orders| == |xs| && UnionState(xs, orders).Some?
    ensures UnionState(xs, orders) == Some(Poured(Joined(orders)))
  {
    if xs != [] {
      var n := |xs| - 1;
      UnionIsPoured(xs[..n], orders[..n]);
      WithAllConcat(NO_MEMBERS, Joined(orders[..n]), orders[n]);
    }
  }

  /** execSUnionStore: a possible outcome of pouring the sources is stored; with no sets among them that is an empty set. */
  method ExecSUnionStore(slots: seq<Slot>, ghost parts: set<object>, ghost xs: seq<Source>)
      returns (r: Resp.Reply, newSet: HS.HashSet?, ghost orders: seq<seq<bytes>>, ghost q: seq<bytes>)
    requires Shows(slots, parts, xs)
    ensures (newSet != null ==> newSet.Valid()) && Goes(orders, xs) && InOrder(q, UnionBy(xs, orders))
    ensures (StateOf(newSet), r) == NodeStores(UnionBy(xs, orders), q, Resp.EmptyMultiBulk)
    ensures newSet != null ==> CanStore(SetsOf(xs), newSet.State()) && r == Resp.Int(|newSet.Model()|)
    ensures newSet == null <==> !AllSets(xs)
    ensures newSet == null ==> r == Resp.Error(WRONG_TYPE)
  {
    var reply;
    reply, orders := UnionLoop(slots, parts, xs);
    r, newSet, q := StoreReply(reply, Resp.EmptyMultiBulk, UnionBy(xs, orders));
    NoneExactly(xs, orders);
    if newSet != null {
      UnionIsPoured(xs, orders);
      assert Stores(SetsOf(xs), orders, q, newSet.State());
    }
  }

  lemma {:induction false} NoneExactly(xs: seq<Source>, orders: seq<seq<bytes>>)
    requires |orders| == |xs|
    ensures UnionState(xs, orders).None? <==> !AllSets(xs)
  {
    if xs != [] {
      var n := |xs| - 1;
      NoneExactly(xs[..n], orders[..n]);
      assert forall i :: 0 <= i < n ==> xs[..n][i] == xs[i];
    }
  }

  lemma {:induction false} NeverUnknown(xs: seq<Source>, orders: seq<seq<bytes>>)
    requires |orders| == |xs|
    ensures InterBy(xs, orders) != Unknown && DiffBy(xs, orders) != Unknown
  {
    if xs != [] && xs[0].Has? {
      InterByNeverUnknown(Poured(orders[0]), xs[1..]);
      DiffByNeverUnknown(Poured(orders[0]), xs[1..], orders[1..]);
    }
  }

  lemma {:induction false} InterByNeverUnknown(acc: SetState, xs: seq<Source>)
    ensures InterRestBy(acc, xs) != Unknown
    decreases |xs|
  {
    if xs != [] && xs[0].Has? { InterByNeverUnknown(KeepCommon(acc, xs[0].held), xs[1..]); }
  }

  lemma {:induction false} DiffByNeverUnknown(acc: SetState, xs: seq<Source>, orders: seq<seq<bytes>>)
    requires |orders| == |xs|
    ensures DiffRestBy(acc, xs, orders) != Unknown
    decreases |xs|
  {
    if xs != [] {
      if xs[0].Has? {
        DiffByNeverUnknown(WithoutAll(acc, orders[0]), xs[1..], orders[1..]);
      } else {
        DiffByNeverUnknown(acc, xs[1..], orders[1..]);
      }
    }
  }

  /** execSInterStore: nothing in common is passed on as the empty array, and the destination stays as it is. */
  method ExecSInterStore(slots: seq<Slot>, ghost parts: set<object>, ghost xs: seq<Source>)
      returns (r: Resp.Reply, newSet: HS.HashSet?, ghost orders: seq<seq<bytes>>, ghost q: seq<bytes>)
    requires Shows(slots, parts, xs)
    ensures (newSet != null ==> newSet.Valid()) && Goes(orders, xs) && InOrder(q, InterBy(xs, orders))
    ensures (StateOf(newSet), r) == NodeStores(InterBy(xs, orders), q, Resp.EmptyMultiBulk)
    ensures newSet != null <==> InterBy(xs, orders).Members?
    ensures newSet != null ==> r == Resp.Int(|newSet.Model()|)
    ensures newSet == null ==> r == if InterBy(xs, orders) == EmptyArray then Resp.EmptyMultiBulk else Resp.Error(WRONG_TYPE)
  {

    var reply;
    reply, orders := InterAll(slots, parts, xs);
    NeverUnknown(xs, orders);
    r, newSet, q := StoreReply(reply, Resp.EmptyMultiBulk, InterBy(xs, orders));
  }

  /** execSDiffStore: when nothing is left the reply is 0, and the destination stays as it is. */
  method ExecSDiffStore(slots: seq<Slot>, ghost parts: set<object>, ghost xs: seq<Source>)
      returns (r: Resp.Reply, newSet: HS.HashSet?, ghost orders: seq<seq<bytes>>, ghost q: seq<bytes>)
    requires Shows(slots, parts, xs) && slots != []
    ensures (newSet != null ==> newSet.Valid()) && Goes(orders, xs) && InOrder(q, DiffBy(xs, orders))
    ensures (StateOf(newSet), r) == NodeStores(DiffBy(xs, orders), q, Resp.Int(0))
    ensures newSet != null <==> DiffBy(xs, orders).Members?
    ensures newSet != null ==> r == Resp.Int(|newSet.Model()|)
    ensures newSet == null ==> r == if DiffBy(xs, orders) == EmptyArray then Resp.Int(0) else Resp.Error(WRONG_TYPE)
  {
    var reply;
    reply, orders := DiffAll(slots, parts, xs);
    NeverUnknown(xs, orders);
    r, newSet, q := StoreReply(reply, Resp.Int(0), DiffBy(xs, orders));
  }
}
