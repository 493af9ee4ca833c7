/**
 Adding the members of one set to a new HashSet, one by one, in the order in which Go happens to go through a map.

 A new set is an integer set until the first member that is no integer, or the 513th number, arrives. A text such as
 "007" is therefore taken for 7 when it comes early and for itself when it comes late: what the new set holds can
 depend on the order. This module proves exactly when it does, for one set and for the union of several.
 */
module Pouring {
  import opened Bytes
  import opened Collections
  import opened Decimal
  import opened Values

  function Poured(q: seq<bytes>): SetState {
    WithAll(NO_MEMBERS, q)
  }

  /** What the members are as long as the set is an integer set. */
  function Canon(s: set<bytes>): set<bytes> {
    set m | m in s :: Taken(true, m)
  }

  /** A new set is still an integer set after these members have come. */
  predicate StaysIntset(s: set<bytes>) {
    AllInts(s) && |Canon(s)| <= MAX_INTSET_ENTRIES
  }

  lemma {:induction false} CanonGrows(s: set<bytes>, t: set<bytes>)
    requires s <= t
    ensures Canon(s) <= Canon(t) && (StaysIntset(t) ==> StaysIntset(s))
  {
    SubsetSize(Canon(s), Canon(t));
  }

  lemma {:induction false} CanonMore(s: set<bytes>, m: bytes)
    ensures Canon(s + {m}) == Canon(s) + {Taken(true, m)}
  {
  }

  lemma {:induction false} TakenTwice(m: bytes)
    ensures Taken(true, Taken(true, m)) == Taken(true, m)
    ensures ParseInt(Taken(true, m)).Some? <==> ParseInt(m).Some?
    ensures Faithful(true, Taken(true, m))
  {
    if ParseInt(m).Some? { TakenIsCanonical(m); }
  }

  lemma {:induction false} PouredMore(p: seq<bytes>, m: bytes)
    ensures Poured(p + [m]) == With(Poured(p), m) && Elements(p + [m]) == Elements(p) + {m}
  {
    assert (p + [m])[..|p|] == p;
    ElementsMore(p, m);
  }

  /** The mode depends on the members that have come, and not on their order. */
  lemma {:induction false} IntsetExactly(p: seq<bytes>)
    ensures Poured(p).isIntset <==> StaysIntset(Elements(p))
    ensures Poured(p).isIntset ==> Poured(p).members == Canon(Elements(p))
  {
    if p == [] {
      assert Canon(Elements(p)) == {};
    } else {
      var q, m := p[..|p| - 1], p[|p| - 1];
      assert p == q + [m];
      PouredMore(q, m);
      IntsetExactly(q);
      CanonMore(Elements(q), m);
      CanonGrows(Elements(q), Elements(p));
    }
  }

  /** Whatever is merged, the numbers and the other members stay. */
  lemma {:induction false} CanonKept(p: seq<bytes>)
    ensures Canon(Poured(p).members) == Canon(Elements(p))
    ensures AllInts(Poured(p).members) <==> AllInts(Elements(p))
  {
    if p != [] {
      var q, m := p[..|p| - 1], p[|p| - 1];
      assert p == q + [m];
      PouredMore(q, m);
      CanonKept(q);
      var t := Taken(Poured(q).isIntset, m);
      TakenTwice(m);
      CanonMore(Elements(q), m);
      CanonMore(Poured(q).members, t);
      AllIntsMore(Elements(q), m);
      AllIntsMore(Poured(q).members, t);
    }
  }

  lemma {:induction false} AllIntsMore(s: set<bytes>, m: bytes)
    ensures AllInts(s + {m}) <==> AllInts(s) && ParseInt(m).Some?
  {
    assert m in s + {m};
    if AllInts(s + {m}) {
      forall x | x in s ensures ParseInt(x).Some? { assert x in s + {m}; }
    }
  }

  lemma {:induction false} PouredGrows(p: seq<bytes>, q: seq<bytes>)
    ensures Poured(p).members <= Poured(p + q).members
    decreases |q|
  {
    if q == [] {
      assert p + q == p;
    } else {
      var n := |q| - 1;
      PouredGrows(p, q[..n]);
      PouredMore(p + q[..n], q[n]);
      assert p + q == p + q[..n] + [q[n]];
    }
  }

  // ----- a text that is not canonical, early and late -----

  /** It never finds a hash table: then it is never taken for itself. */
  predicate ComesEarly(p: seq<bytes>, u: bytes) {
    forall k :: 0 <= k < |p| && p[k] == u ==> StaysIntset(Elements(p[..k]))
  }

  lemma {:induction false} EarlyIsMerged(p: seq<bytes>, u: bytes)
    requires !Faithful(true, u) && ComesEarly(p, u)
    ensures u !in Poured(p).members
  {
    if p != [] {
      var q, m := p[..|p| - 1], p[|p| - 1];
      assert p == q + [m];
      forall k | 0 <= k < |q| && q[k] == u ensures StaysIntset(Elements(q[..k])) {
        assert p[k] == u && p[..k] == q[..k];
      }
      EarlyIsMerged(q, u);
      PouredMore(q, m);
      IntsetExactly(q);
      TakenTwice(m);
    }
  }

  /** When it has been taken for itself, the other members were enough to make a hash table. */
  lemma {:induction false} LateFoundATable(p: seq<bytes>, u: bytes)
    requires !Faithful(true, u) && u in Poured(p).members
    ensures !StaysIntset(Poured(p).members - {u})
  {
    if p != [] {
      var q, m := p[..|p| - 1], p[|p| - 1];
      assert p == q + [m];
      PouredMore(q, m);
      if u in Poured(q).members {
        LateFoundATable(q, u);
        CanonGrows(Poured(q).members - {u}, Poured(p).members - {u});
      } else {
        TakenTwice(m);
        assert m == u && !Poured(q).isIntset;
        IntsetExactly(q);
        CanonKept(q);
        assert Poured(p).members - {u} == Poured(q).members;
      }
    }
  }

  lemma {:induction false} LateIsItself(p: seq<bytes>, u: bytes, more: seq<bytes>)
    requires !StaysIntset(Elements(p))
    ensures u in Poured(p + [u] + more).members
  {
    IntsetExactly(p);
    PouredMore(p, u);
    PouredGrows(p + [u], more);
  }

  /** When every such text comes early, all of them are merged. */
  lemma {:induction false} AllEarly(p: seq<bytes>)
    requires forall k :: 0 <= k < |p| && !Faithful(true, p[k]) ==> StaysIntset(Elements(p[..k]))
    ensures Poured(p).members == Canon(Elements(p))
  {
    if p == [] {
      assert Canon(Elements(p)) == {};
    } else {
      var q, m := p[..|p| - 1], p[|p| - 1];
      assert p == q + [m];
      forall k | 0 <= k < |q| && !Faithful(true, q[k]) ensures StaysIntset(Elements(q[..k])) {
        assert p[k] == q[k] && p[..k] == q[..k];
      }
      AllEarly(q);
      PouredMore(q, m);
      CanonMore(Elements(q), m);
      IntsetExactly(q);
      assert p[..|q|] == q && p[|q|] == m;
      FaithfulExactly(Poured(q).isIntset, m);
      FaithfulExactly(true, m);
    }
  }

  lemma {:induction false} CanonIsFaithful(s: set<bytes>)
    ensures AllFaithful(Canon(s)) && (AllFaithful(s) ==> Canon(s) == s)
  {
    forall m | m in Canon(s) ensures Faithful(true, m) {
      var x :| x in s && m == Taken(true, x);
      TakenTwice(x);
    }
    if AllFaithful(s) {
      forall m | m in s ensures Taken(true, m) == m { FaithfulExactly(true, m); }
      assert forall m :: m in s ==> Taken(true, m) in Canon(s);
    }
  }

  // ----- one set -----

  /** Whatever the order, a new set holds the same. */
  ghost predicate OrderFree(s: set<bytes>) {
    forall p, q :: Lists(p, s) && Lists(q, s) ==> Poured(p) == Poured(q)
  }

  /** Nothing in front of a text that is not canonical can turn the new set into a hash table. */
  predicate NeverLate(before: set<bytes>, s: set<bytes>) {
    forall u :: u in s && !Faithful(true, u) ==> StaysIntset(before + (s - {u}))
  }

  lemma {:induction false} UpTo(before: seq<bytes>, q: seq<bytes>, s: set<bytes>, k: nat)
    requires Lists(q, s) && k < |q|
    ensures Elements(before + q[..k]) <= Elements(before) + (s - {q[k]})
  {
    ListsOnce(q, s);
    forall m | m in q[..k] ensures m in s - {q[k]} {
      var j :| 0 <= j < k && q[..k][j] == m;
      assert q[j] == m && m in q;
    }
  }

  /** Pouring one more set behind what has come already. */
  lemma {:induction false} OneMoreSet(p: seq<bytes>, q: seq<bytes>, s: set<bytes>)
    requires forall k :: 0 <= k < |p| && !Faithful(true, p[k]) ==> StaysIntset(Elements(p[..k]))
    requires Lists(q, s) && NeverLate(Elements(p), s)
    ensures forall k :: 0 <= k < |p + q| && !Faithful(true, (p + q)[k]) ==> StaysIntset(Elements((p + q)[..k]))
  {
    forall k | 0 <= k < |p + q| && !Faithful(true, (p + q)[k]) ensures StaysIntset(Elements((p + q)[..k])) {
      if k < |p| {
        assert (p + q)[..k] == p[..k];
      } else {
        var j := k - |p|;
        assert (p + q)[..k] == p + q[..j] && (p + q)[k] == q[j] && q[j] in q;
        UpTo(p, q, s, j);
        CanonGrows(Elements(p + q[..j]), Elements(p) + (s - {q[j]}));
      }
    }
  }

  lemma {:induction false} ListingEndingIn(s: set<bytes>, u: bytes) returns (r: seq<bytes>)
    requires u in s
    ensures Lists(r, s - {u}) && Lists(r + [u], s) && Lists([u] + r, s)
  {
    r := ListingExists(s - {u});
    ListsMore(r, s - {u}, u);
    assert s - {u} + {u} == s;
  }

  /** The text is merged when it comes first, whatever follows. */
  lemma {:induction false} FirstIsMerged(r: seq<bytes>, s: set<bytes>, u: bytes)
    requires Lists(r, s - {u}) && !Faithful(true, u)
    ensures u !in Poured([u] + r).members
  {
    var p := [u] + r;
    assert forall j :: 0 <= j < |r| ==> r[j] in Elements(r) && r[j] != u;
    assert p[..0] == [] && Canon(Elements(p[..0])) == {};
    EarlyIsMerged(p, u);
  }

  /** One set is poured the same in every order exactly when none of its texts can come too late to be merged. */
  lemma {:induction false} OrderFreeExactly(s: set<bytes>)
    ensures OrderFree(s) <==> NeverLate({}, s)
  {
    if NeverLate({}, s) {
      EarlyIsFree(s);
    } else {
      var u :| u in s && !Faithful(true, u) && !StaysIntset({} + (s - {u}));
      LateIsNotFree(s, u);
    }
  }

  lemma {:induction false} EarlyIsFree(s: set<bytes>)
    requires NeverLate({}, s)
    ensures OrderFree(s)
  {
    forall p, q | Lists(p, s) && Lists(q, s) ensures Poured(p) == Poured(q) {
      PouredEarly(p, s);
      PouredEarly(q, s);
    }
  }

  lemma {:induction false} LateIsNotFree(s: set<bytes>, u: bytes)
    requires u in s && !Faithful(true, u) && !StaysIntset({} + (s - {u}))
    ensures !OrderFree(s)
  {
    assert {} + (s - {u}) == s - {u};
    var r := EarlyAndLate(s, u);
  }

  /** Listings with the text at the end and at the front, poured into different sets. */
  lemma {:induction false} EarlyAndLate(s: set<bytes>, u: bytes) returns (r: seq<bytes>)
    requires u in s && !Faithful(true, u) && !StaysIntset(s - {u})
    ensures Lists(r + [u], s) && Lists([u] + r, s) && Poured(r + [u]) != Poured([u] + r)
  {
    r := ListingEndingIn(s, u);
    FirstIsMerged(r, s, u);
    LateIsItself(r, u, []);
    assert r + [u] + [] == r + [u];
  }

  lemma {:induction false} PouredEarly(p: seq<bytes>, s: set<bytes>)
    requires Lists(p, s) && NeverLate({}, s)
    ensures Poured(p) == SetState(Canon(s), StaysIntset(s))
  {
    var none: seq<bytes> := [];
    assert Elements(none) == {};
    OneMoreSet(none, p, s);
    assert none + p == p;
    AllEarly(p);
    IntsetExactly(p);
  }

  // ----- SUNIONSTORE -----

  /** The orders in which the sources are gone through. */
  ghost predicate Visits(orders: seq<seq<bytes>>, sources: seq<set<bytes>>) {
    |orders| == |sources| && forall i :: 0 <= i < |orders| ==> Lists(orders[i], sources[i])
  }

  /** One after the other. */
  function Joined(orders: seq<seq<bytes>>): seq<bytes> {
    if orders == [] then [] else Joined(orders[..|orders| - 1]) + orders[|orders| - 1]
  }

  function UnionOf(sources: seq<set<bytes>>): set<bytes> {
    if sources == [] then {} else UnionOf(sources[..|sources| - 1]) + sources[|sources| - 1]
  }

  /**
   What SUNIONSTORE can store: the sources are poured into one set, and the members of that, in an order of their
   own, into another.
   */
  ghost predicate CanStore(sources: seq<set<bytes>>, x: SetState) {
    exists orders, last :: Stores(sources, orders, last, x)
  }

  ghost predicate Stores(sources: seq<set<bytes>>, orders: seq<seq<bytes>>, last: seq<bytes>, x: SetState) {
    Visits(orders, sources) && Lists(last, Poured(Joined(orders)).members) && x == Poured(last)
  }

  ghost predicate OneOutcome(sources: seq<set<bytes>>) {
    forall x, y :: CanStore(sources, x) && CanStore(sources, y) ==> x == y
  }

  /** No text of any source can come too late to be merged. */
  predicate Settled(sources: seq<set<bytes>>) {
    forall i :: 0 <= i < |sources| ==> NeverLate(UnionOf(sources[..i]), sources[i])
  }

  lemma {:induction false} JoinedElements(orders: seq<seq<bytes>>, sources: seq<set<bytes>>)
    requires Visits(orders, sources)
    ensures Elements(Joined(orders)) == UnionOf(sources)
  {
    if orders != [] {
      var n := |orders| - 1;
      JoinedElements(orders[..n], sources[..n]);
      ElementsConcat(Joined(orders[..n]), orders[n]);
    }
  }

  lemma {:induction false} SettledPrefix(sources: seq<set<bytes>>)
    requires Settled(sources) && sources != []
    ensures Settled(sources[..|sources| - 1]) && NeverLate(UnionOf(sources[..|sources| - 1]), sources[|sources| - 1])
  {
    var n := |sources| - 1;
    forall i | 0 <= i < n ensures NeverLate(UnionOf(sources[..n][..i]), sources[..n][i]) {
      assert sources[..n][..i] == sources[..i];
    }
  }

  lemma {:induction false} JoinedEarly(orders: seq<seq<bytes>>, sources: seq<set<bytes>>)
    requires Visits(orders, sources) && Settled(sources)
    ensures var p := Joined(orders); forall k :: 0 <= k < |p| && !Faithful(true, p[k]) ==> StaysIntset(Elements(p[..k]))
  {
    if orders != [] {
      var n := |orders| - 1;
      SettledPrefix(sources);
      JoinedEarly(orders[..n], sources[..n]);
      JoinedElements(orders[..n], sources[..n]);
      OneMoreSet(Joined(orders[..n]), orders[n], sources[n]);
    }
  }

  lemma {:induction false} SettledStores(sources: seq<set<bytes>>, orders: seq<seq<bytes>>, last: seq<bytes>, x: SetState)
    requires Settled(sources) && Stores(sources, orders, last, x)
    ensures x == Fresh(Canon(UnionOf(sources)))
  {
    JoinedEarly(orders, sources);
    JoinedElements(orders, sources);
    AllEarly(Joined(orders));
    CanonIsFaithful(UnionOf(sources));
    FaithfulPour(last);
  }

  lemma {:induction false} VisitsExist(sources: seq<set<bytes>>) returns (orders: seq<seq<bytes>>)
    ensures Visits(orders, sources)
  {
    if sources == [] {
      orders := [];
    } else {
      var n := |sources| - 1;
      var rest := VisitsExist(sources[..n]);
      var q := ListingExists(sources[n]);
      orders := rest + [q];
    }
  }

  lemma {:induction false} OneMoreVisit(rest: seq<seq<bytes>>, sources: seq<set<bytes>>, q: seq<bytes>)
    requires sources != [] && Visits(rest, sources[..|sources| - 1]) && Lists(q, sources[|sources| - 1])
    ensures Visits(rest + [q], sources) && Joined(rest + [q]) == Joined(rest) + q
  {
    assert (rest + [q])[..|rest|] == rest;
  }

  /** Source `i` gone through with `u` at its end, and the others in some order. */
  lemma {:induction false} VisitsWithLast(sources: seq<set<bytes>>, i: nat, u: bytes)
      returns (orders: seq<seq<bytes>>, front: seq<bytes>, back: seq<bytes>)
    requires i < |sources| && u in sources[i]
    ensures Visits(orders, sources) && Joined(orders) == front + [u] + back
    ensures Elements(front) == UnionOf(sources[..i]) + (sources[i] - {u})
    decreases |sources|
  {
    var n := |sources| - 1;
    if i == n {
      var rest := VisitsExist(sources[..n]);
      var r := ListingEndingIn(sources[n], u);
      orders := rest + [r + [u]];
      OneMoreVisit(rest, sources, r + [u]);
      front, back := Joined(rest) + r, [];
      JoinedElements(rest, sources[..n]);
      ElementsConcat(Joined(rest), r);
      assert Joined(rest) + (r + [u]) == front + [u] + back;
    } else {
      var rest, f, b := VisitsWithLast(sources[..n], i, u);
      var q := ListingExists(sources[n]);
      orders := rest + [q];
      OneMoreVisit(rest, sources, q);
      assert sources[..n][..i] == sources[..i];
      front, back := f, b + q;
      assert f + [u] + b + q == f + [u] + (b + q);
    }
  }

  lemma {:induction false} UnsettledStores(sources: seq<set<bytes>>, i: nat, u: bytes)
    requires i < |sources| && u in sources[i] && !Faithful(true, u)
    requires !StaysIntset(UnionOf(sources[..i]) + (sources[i] - {u}))
    ensures !OneOutcome(sources)
  {
    var orders, front, back := VisitsWithLast(sources, i, u);
    LateIsItself(front, u, back);
    var s := Poured(Joined(orders)).members;
    LateFoundATable(Joined(orders), u);
    var r := EarlyAndLate(s, u);
    var x, y := Poured(r + [u]), Poured([u] + r);
    assert Stores(sources, orders, r + [u], x);
    assert Stores(sources, orders, [u] + r, y);
    assert CanStore(sources, x) && CanStore(sources, y) && x != y;
  }

  /**
   SUNIONSTORE has one possible outcome exactly when no text that is not canonical can find the result a hash table:
   all that may come before it are integers, and at most 512 of them.
   */
  lemma {:induction false} OneOutcomeExactly(sources: seq<set<bytes>>)
    ensures OneOutcome(sources) <==> Settled(sources)
  {
    if Settled(sources) {
      forall x, y | CanStore(sources, x) && CanStore(sources, y) ensures x == y {
        var orders, last :| Stores(sources, orders, last, x);
        SettledStores(sources, orders, last, x);
        var orders', last' :| Stores(sources, orders', last', y);
        SettledStores(sources, orders', last', y);
      }
    } else {
      var i :| 0 <= i < |sources| && !NeverLate(UnionOf(sources[..i]), sources[i]);
      var u :| u in sources[i] && !Faithful(true, u) && !StaysIntset(UnionOf(sources[..i]) + (sources[i] - {u}));
      UnsettledStores(sources, i, u);
    }
  }

  /** Faithful members are always settled, and the outcome is their union. */
  lemma {:induction false} FaithfulIsSettled(sources: seq<set<bytes>>)
    requires AllFaithful(UnionOf(sources))
    ensures Settled(sources) && Canon(UnionOf(sources)) == UnionOf(sources)
  {
    forall i | 0 <= i < |sources| ensures NeverLate(UnionOf(sources[..i]), sources[i]) {
      InUnion(sources, i);
    }
    CanonIsFaithful(UnionOf(sources));
  }

  lemma {:induction false} InUnion(sources: seq<set<bytes>>, i: nat)
    requires i < |sources|
    ensures sources[i] <= UnionOf(sources)
  {
    if i < |sources| - 1 { InUnion(sources[..|sources| - 1], i); }
  }

  // ----- "x" and "007" -----

  const SEVEN: bytes := [55]
  const ZEROS_SEVEN: bytes := [48, 48, 55]
  const X: bytes := [120]

  lemma {:induction false} Sevens()
    ensures Taken(true, SEVEN) == SEVEN && Taken(true, ZEROS_SEVEN) == SEVEN && Taken(false, ZEROS_SEVEN) == ZEROS_SEVEN
    ensures ParseInt(X).None? && ParseInt(ZEROS_SEVEN).Some? && Taken(true, X) == X
    ensures SEVEN != ZEROS_SEVEN && X != ZEROS_SEVEN && X != SEVEN
  {
    LeadingZerosAreNotCanonical();
    ParseIntAfterFormat(7);
  }

  lemma {:induction false} PouredPair(a: bytes, b: bytes)
    ensures Poured([a, b]) == With(With(NO_MEMBERS, a), b)
  {
    assert [a, b] == [] + [a] + [b];
    PouredMore([], a);
    PouredMore([] + [a], b);
  }

  /** The hash table that SADD makes of "x" and "007" is poured into two different sets. */
  lemma {:induction false} TwoOrders()
    ensures Poured([X, ZEROS_SEVEN]).members == {X, ZEROS_SEVEN}
    ensures Poured([ZEROS_SEVEN, X]).members == {SEVEN, X}
    ensures !OneOutcome([{X, ZEROS_SEVEN}])
  {
    Sevens();
    PouredPair(X, ZEROS_SEVEN);
    PouredPair(ZEROS_SEVEN, X);
    TwoOutcomes();
  }

  lemma {:induction false} TwoOutcomes()
    ensures !OneOutcome([{X, ZEROS_SEVEN}])
  {
    Sevens();
    var s := {X, ZEROS_SEVEN};
    assert X in UnionOf([s][..0]) + ([s][0] - {ZEROS_SEVEN});
    UnsettledStores([s], 0, ZEROS_SEVEN);
  }
}
