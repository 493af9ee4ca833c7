/**
 SUNION, SINTER and SDIFF: what one node answers (database/set.go), and what the cluster router makes of the answers
 of several nodes (cluster/router.go).

 One node works with a new HashSet, so what it answers can depend on the order in which it goes through its sources
 (module Pouring). `UnionBy`, `InterBy` and `DiffBy` say what it answers for given orders; `Union`, `Inter` and `Diff`
 are the same loops on mathematical sets.
 */
module SetAlgebra {
  import opened Bytes
  import opened Collections
  import opened Decimal
  import opened Values
  import opened Pouring
  import opened Programs

  /** The values of one database by key name. */
  type Shelf = map<bytes, Value>

  /** Where a source key stands: absent, a set, or something else. */
  datatype Source = Absent | Has(held: SetState) | Wrong

  function SourceOf(s: Shelf, key: bytes): Source {
    if key !in s then Absent else if s[key].SetOf? then Has(s[key].held) else Wrong
  }

  function MembersOf(x: Source): set<bytes> {
    if x.Has? then x.held.members else {}
  }

  /** A source with the given members. */
  function Holding(s: set<bytes>): Source {
    Has(SetState(s, false))
  }

  /** An answer: an array of members, the reply of its own for the empty array, or an error. */
  datatype Answer = Members(s: set<bytes>) | EmptyArray | WrongType | Unknown

  /** The two replies for the empty array have the same bytes. */
  predicate Same(a: Answer, b: Answer) {
    a == b || (a == EmptyArray && b == Members({})) || (a == Members({}) && b == EmptyArray)
  }

  predicate AllSets(xs: seq<Source>) {
    forall i :: 0 <= i < |xs| ==> xs[i] != Wrong
  }

  // ----- on mathematical sets -----

  /** The loop of execSUnion: the first source of another type is an error. */
  function Union(xs: seq<Source>): Answer {
    if xs == [] then Members({})
    else match Union(xs[..|xs| - 1])
      case Members(u) => if xs[|xs| - 1] == Wrong then WrongType else Members(u + MembersOf(xs[|xs| - 1]))
      case a => a
  }

  /** The loop of execSInter from the second source on; an absent source or an empty result ends it. */
  function InterRest(acc: set<bytes>, xs: seq<Source>): Answer
    decreases |xs|
  {
    if xs == [] then Members(acc)
    else match xs[0]
      case Wrong => WrongType
      case Absent => EmptyArray
      case Has(x) => if acc * x.members == {} then EmptyArray else InterRest(acc * x.members, xs[1..])
  }

  function Inter(xs: seq<Source>): Answer {
    if xs == [] then EmptyArray
    else match xs[0]
      case Wrong => WrongType
      case Absent => EmptyArray
      case Has(x) => InterRest(x.members, xs[1..])
  }

  /** The loop of execSDiff; an empty result ends it. */
  function DiffRest(acc: set<bytes>, xs: seq<Source>): Answer
    decreases |xs|
  {
    if xs == [] then Members(acc)
    else match xs[0]
      case Wrong => WrongType
      case Absent => DiffRest(acc, xs[1..])
      case Has(x) => if acc - x.members == {} then EmptyArray else DiffRest(acc - x.members, xs[1..])
  }

  function Diff(xs: seq<Source>): Answer {
    if xs == [] then EmptyArray
    else match xs[0]
      case Wrong => WrongType
      case Absent => EmptyArray
      case Has(x) => DiffRest(x.members, xs[1..])
  }

  // ----- what that comes to -----

  /** The members that all sources have. */
  ghost function Common(xs: seq<Source>): set<bytes>
    requires xs != []
  {
    set m | m in MembersOf(xs[0]) && forall i :: 0 <= i < |xs| ==> m in MembersOf(xs[i])
  }

  ghost function OnlyInFirst(xs: seq<Source>): set<bytes>
    requires xs != []
  {
    set m | m in MembersOf(xs[0]) && forall i :: 1 <= i < |xs| ==> m !in MembersOf(xs[i])
  }

  ghost function InAny(xs: seq<Source>): set<bytes> {
    set i, m | 0 <= i < |xs| && m in MembersOf(xs[i]) :: m
  }

  lemma {:induction false} UnionMeans(xs: seq<Source>)
    ensures Union(xs) == if AllSets(xs) then Members(InAny(xs)) else WrongType
  {
    if xs != [] {
      var n := |xs| - 1;
      UnionMeans(xs[..n]);
      assert AllSets(xs) <==> AllSets(xs[..n]) && xs[n] != Wrong by {
        assert forall i :: 0 <= i < n ==> xs[..n][i] == xs[i];
      }
      assert InAny(xs) == InAny(xs[..n]) + MembersOf(xs[n]) by {
        forall m ensures m in InAny(xs) <==> m in InAny(xs[..n]) || m in MembersOf(xs[n]) {
          assert forall i :: 0 <= i < n ==> xs[..n][i] == xs[i];
        }
      }
    }
  }

  /** What two commands have in common depends on the members of their sources only. */
  lemma {:induction false} OnlyMembersCount(x: Source, rest: seq<Source>)
    ensures Common([x] + rest) == Common([Holding(MembersOf(x))] + rest)
    ensures OnlyInFirst([x] + rest) == OnlyInFirst([Holding(MembersOf(x))] + rest)
  {
    var a, b := [x] + rest, [Holding(MembersOf(x))] + rest;
    assert forall i :: 0 <= i < |a| ==> MembersOf(a[i]) == MembersOf(b[i]);
  }

  lemma {:induction false} CommonStep(acc: set<bytes>, xs: seq<Source>)
    requires xs != []
    ensures Common([Holding(acc)] + xs) == Common([Holding(acc * MembersOf(xs[0]))] + xs[1..])
  {
    var a, b := [Holding(acc)] + xs, [Holding(acc * MembersOf(xs[0]))] + xs[1..];
    forall m ensures m in Common(a) <==> m in Common(b) {
      if m in Common(a) {
        forall i | 0 <= i < |b| ensures m in MembersOf(b[i]) { assert m in MembersOf(a[0]) && m in MembersOf(a[1]) && (i > 0 ==> b[i] == a[i + 1]); }
      }
      if m in Common(b) {
        forall i | 0 <= i < |a| ensures m in MembersOf(a[i]) { assert m in MembersOf(b[0]) && (i > 1 ==> a[i] == b[i - 1]); }
      }
    }
  }

  lemma {:induction false} DiffStep(acc: set<bytes>, xs: seq<Source>)
    requires xs != []
    ensures OnlyInFirst([Holding(acc)] + xs) == OnlyInFirst([Holding(acc - MembersOf(xs[0]))] + xs[1..])
  {
    var a, b := [Holding(acc)] + xs, [Holding(acc - MembersOf(xs[0]))] + xs[1..];
    forall m ensures m in OnlyInFirst(a) <==> m in OnlyInFirst(b) {
      if m in OnlyInFirst(a) {
        forall i | 1 <= i < |b| ensures m !in MembersOf(b[i]) { assert b[i] == a[i + 1]; }
        assert m !in MembersOf(a[1]);
      }
      if m in OnlyInFirst(b) {
        forall i | 1 <= i < |a| ensures m !in MembersOf(a[i]) { assert m !in MembersOf(xs[0]) && (i > 1 ==> a[i] == b[i - 1]); }
      }
    }
  }

  lemma {:induction false} DiffRestIs(acc: set<bytes>, xs: seq<Source>)
    requires AllSets(xs)
    ensures Same(DiffRest(acc, xs), Members(OnlyInFirst([Holding(acc)] + xs)))
    decreases |xs|
  {
    if xs == [] {
      assert OnlyInFirst([Holding(acc)] + xs) == acc;
    } else {
      var left := acc - MembersOf(xs[0]);
      DiffStep(acc, xs);
      if xs[0].Absent? {
        assert left == acc;
        DiffRestIs(acc, xs[1..]);
      } else if left != {} {
        DiffRestIs(left, xs[1..]);
      } else {
        assert OnlyInFirst([Holding(left)] + xs[1..]) == {};
      }
    }
  }

  lemma {:induction false} DiffMeans(xs: seq<Source>)
    requires xs != [] && AllSets(xs)
    ensures Same(Diff(xs), Members(OnlyInFirst(xs)))
  {
    if xs[0].Has? {
      DiffRestIs(MembersOf(xs[0]), xs[1..]);
      OnlyMembersCount(xs[0], xs[1..]);
      assert [xs[0]] + xs[1..] == xs;
    } else {
      assert OnlyInFirst(xs) == {};
    }
  }

  // ----- in a cluster -----

  /** What the router sees of a source: the empty array from another node arrives as a reply of its own type. */
  function Seen(x: Source, away: bool): Answer {
    if x == Wrong then WrongType
    else if away && MembersOf(x) == {} then EmptyArray
    else Members(MembersOf(x))
  }

  function AllSeen(xs: seq<Source>, away: seq<bool>): (ys: seq<Answer>)
    requires |away| == |xs|
    ensures |ys| == |xs| && forall i :: 0 <= i < |xs| ==> ys[i] == Seen(xs[i], away[i])
  {
    seq(|xs|, i requires 0 <= i < |xs| => Seen(xs[i], away[i]))
  }

  /** What setIntersectFunc has at the end of its first loop: the sets it will intersect, or an answer already. */
  datatype Gathered = Sets(q: seq<set<bytes>>) | Ends(a: Answer)

  function Gather(ys: seq<Answer>): Gathered {
    if ys == [] then Sets([])
    else match Gather(ys[..|ys| - 1])
      case Sets(q) =>
        (match ys[|ys| - 1]
         case Members(m) => if m == {} then Ends(Members({})) else Sets(q + [m])
         case EmptyArray => Sets(q)
         case e => Ends(e))
      case e => e
  }

  /** The second loop of setIntersectFunc. */
  function Meet(q: seq<set<bytes>>): set<bytes> {
    if q == [] then {} else if |q| == 1 then q[0] else Meet(q[..|q| - 1]) * q[|q| - 1]
  }

  function ClusterInter(ys: seq<Answer>): Answer {
    if |ys| == 1 then ys[0]
    else match Gather(ys)
      case Ends(a) => a
      case Sets(q) => Members(Meet(q))
  }

  function ClusterDiffRest(acc: set<bytes>, ys: seq<Answer>): Answer
    decreases |ys|
  {
    if ys == [] then Members(acc)
    else match ys[0]
      case Members(m) => if acc - m == {} then Members({}) else ClusterDiffRest(acc - m, ys[1..])
      case EmptyArray => if acc == {} then Members({}) else ClusterDiffRest(acc, ys[1..])
      case e => e
  }

  /** setDiffFunc: an empty first source from another node is taken for an array by its bytes and panics as one. */
  function ClusterDiff(ys: seq<Answer>): Answer
    requires ys != []
  {
    match ys[0]
    case Members(m) => ClusterDiffRest(m, ys[1..])
    case EmptyArray => Unknown
    case e => e
  }

  // ----- where the two agree -----

  /** Sources as they are when no command leaves an empty set behind. */
  predicate Stored(xs: seq<Source>) {
    forall i :: 0 <= i < |xs| && xs[i].Has? ==> xs[i].held.members != {}
  }

  lemma {:induction false} DiffRestAgrees(acc: set<bytes>, xs: seq<Source>, away: seq<bool>)
    requires |away| == |xs| && acc != {} && Stored(xs)
    ensures Same(ClusterDiffRest(acc, AllSeen(xs, away)), DiffRest(acc, xs))
    decreases |xs|
  {
    if xs != [] {
      assert AllSeen(xs, away)[1..] == AllSeen(xs[1..], away[1..]);
      var left := acc - MembersOf(xs[0]);
      assert xs[0].Absent? ==> left == acc;
      if left != {} { DiffRestAgrees(left, xs[1..], away[1..]); }
    }
  }

  /** SDIFF over the nodes is right unless its first source is absent and either lies elsewhere or hides a wrong type. */
  predicate DiffIsRight(xs: seq<Source>, away: seq<bool>)
    requires xs != [] && |away| == |xs|
  {
    xs[0] == Absent ==> !away[0] && (|xs| > 1 ==> xs[1] != Wrong)
  }

  lemma {:induction false} SameDiffExactly(xs: seq<Source>, away: seq<bool>)
    requires xs != [] && |away| == |xs| && Stored(xs)
    ensures Same(ClusterDiff(AllSeen(xs, away)), Diff(xs)) <==> DiffIsRight(xs, away)
  {
    var ys := AllSeen(xs, away);
    assert ys[1..] == AllSeen(xs[1..], away[1..]);
    if xs[0].Has? {
      DiffRestAgrees(xs[0].held.members, xs[1..], away[1..]);
    } else if xs[0].Absent? && !away[0] && |xs| > 1 {
      assert ys[1..][0] == Seen(xs[1], away[1]);
      var none: set<bytes> := {};
      assert none - MembersOf(xs[1]) == none;
    }
    DiffNeverUnknown(xs);
  }

  lemma {:induction false} DiffNeverUnknown(xs: seq<Source>)
    ensures Diff(xs) != Unknown
  {
    if xs != [] && xs[0].Has? { DiffRestNeverUnknown(xs[0].held.members, xs[1..]); }
  }

  lemma {:induction false} DiffRestNeverUnknown(acc: set<bytes>, xs: seq<Source>)
    ensures DiffRest(acc, xs) != Unknown
    decreases |xs|
  {
    if xs != [] { DiffRestNeverUnknown(acc - MembersOf(xs[0]), xs[1..]); if xs[0].Absent? { DiffRestNeverUnknown(acc, xs[1..]); } }
  }

  /** The sources in front of the first one of another type. */
  function Typed(xs: seq<Source>): (p: seq<Source>)
    ensures p <= xs && AllSets(p) && (|p| < |xs| ==> xs[|p|] == Wrong)
  {
    if xs == [] || xs[0] == Wrong then [] else [xs[0]] + Typed(xs[1..])
  }

  /** Some source is absent on the node that runs the command. */
  ghost predicate AbsentHere(p: seq<Source>, away: seq<bool>)
    requires |p| <= |away|
  {
    exists i :: 0 <= i < |p| && p[i] == Absent && !away[i]
  }

  /** The members common to the sources that have any. */
  ghost function CommonOfPresent(xs: seq<Source>): set<bytes> {
    set i, m | 0 <= i < |xs| && m in MembersOf(xs[i]) && InAllPresent(xs, m) :: m
  }

  ghost predicate InAllPresent(xs: seq<Source>, m: bytes) {
    forall i :: 0 <= i < |xs| && MembersOf(xs[i]) != {} ==> m in MembersOf(xs[i])
  }

  lemma {:induction false} MeetIs(q: seq<set<bytes>>, m: bytes)
    requires q != []
    ensures m in Meet(q) <==> forall i :: 0 <= i < |q| ==> m in q[i]
  {
    if |q| > 1 { MeetIs(q[..|q| - 1], m); }
  }

  /** The first loop ends early at an absent source of this node or at a wrong type, whichever comes first. */
  lemma {:induction false} GatherIs(xs: seq<Source>, away: seq<bool>)
    requires |away| == |xs| && Stored(xs)
    ensures var g, p := Gather(AllSeen(xs, away)), Typed(xs);
            if AbsentHere(p, away) then g == Ends(Members({}))
            else if |p| < |xs| then g == Ends(WrongType)
            else g.Sets? && Gathers(g.q, xs)
  {
    if xs != [] {
      var n := |xs| - 1;
      GatherIs(xs[..n], away[..n]);
      assert AllSeen(xs, away)[..n] == AllSeen(xs[..n], away[..n]);
      TypedSnoc(xs);
      AbsentSnoc(xs, away);
      if Gather(AllSeen(xs, away)[..n]).Sets? { GathersSnoc(Gather(AllSeen(xs, away)[..n]).q, xs); }
    }
  }

  /** The gathered sets are those of the sources that have members. */
  ghost predicate Gathers(q: seq<set<bytes>>, xs: seq<Source>) {
    && (forall i :: 0 <= i < |q| ==> q[i] != {} && exists j :: 0 <= j < |xs| && MembersOf(xs[j]) == q[i])
    && (forall i :: 0 <= i < |xs| && MembersOf(xs[i]) != {} ==> MembersOf(xs[i]) in q)
  }

  lemma {:induction false} GathersSnoc(q: seq<set<bytes>>, xs: seq<Source>)
    requires xs != [] && Gathers(q, xs[..|xs| - 1])
    ensures MembersOf(xs[|xs| - 1]) == {} ==> Gathers(q, xs)
    ensures MembersOf(xs[|xs| - 1]) != {} ==> Gathers(q + [MembersOf(xs[|xs| - 1])], xs)
  {
    var n := |xs| - 1;
    assert xs == xs[..n] + [xs[n]];
    assert forall i :: 0 <= i < n ==> xs[i] == xs[..n][i];
    forall i | 0 <= i < |q| ensures exists j :: 0 <= j < |xs| && MembersOf(xs[j]) == q[i] {
      var j :| 0 <= j < n && MembersOf(xs[..n][j]) == q[i];
      assert MembersOf(xs[j]) == q[i];
    }
    var p := q + [MembersOf(xs[n])];
    forall i | 0 <= i < |p| ensures exists j :: 0 <= j < |xs| && MembersOf(xs[j]) == p[i] {
      if i < |q| {
        var j :| 0 <= j < |xs| && MembersOf(xs[j]) == q[i];
      } else {
        assert MembersOf(xs[n]) == p[i];
      }
    }
    forall i | 0 <= i < |xs| && MembersOf(xs[i]) != {} ensures MembersOf(xs[i]) in p {
      if i < n { assert MembersOf(xs[..n][i]) in q; } else { assert p[|q|] == MembersOf(xs[n]); }
    }
  }

  lemma {:induction false} TypedSnoc(xs: seq<Source>)
    requires xs != []
    ensures var n := |xs| - 1; var p := Typed(xs[..n]);
            Typed(xs) == if |p| < n || xs[n] == Wrong then p else xs
  {
    var n := |xs| - 1;
    if n > 0 {
      TypedSnoc(xs[1..]);
      assert xs[..n][1..] == xs[1..][..n - 1] && xs[..n][0] == xs[0] && xs[1..][n - 1] == xs[n];
      assert [xs[0]] + xs[1..] == xs;
    }
  }

  lemma {:induction false} AbsentSnoc(xs: seq<Source>, away: seq<bool>)
    requires xs != [] && |away| == |xs|
    ensures var n := |xs| - 1;
            && (AbsentHere(Typed(xs[..n]), away[..n]) <==> AbsentHere(Typed(xs[..n]), away))
            && (AbsentHere(xs, away) <==> AbsentHere(xs[..n], away) || (xs[n] == Absent && !away[n]))
  {
    var n := |xs| - 1;
    assert forall i :: 0 <= i < n ==> xs[i] == xs[..n][i] && away[i] == away[..n][i];
    if AbsentHere(xs, away) {
      var i :| 0 <= i < |xs| && xs[i] == Absent && !away[i];
      assert i < n ==> xs[..n][i] == Absent;
    }
    var p := Typed(xs[..n]);
    assert forall i :: 0 <= i < |p| ==> away[i] == away[..n][i];
  }

  lemma {:induction false} MeetGathers(q: seq<set<bytes>>, xs: seq<Source>)
    requires Gathers(q, xs)
    ensures Meet(q) == CommonOfPresent(xs)
  {
    forall m ensures m in Meet(q) <==> m in CommonOfPresent(xs) {
      if q == [] {
        assert m !in CommonOfPresent(xs);
      } else {
        MeetIs(q, m);
        if m in Meet(q) {
          assert m in q[0];
          var i :| 0 <= i < |xs| && MembersOf(xs[i]) == q[0];
          assert m in MembersOf(xs[i]) && InAllPresent(xs, m);
        }
        if m in CommonOfPresent(xs) {
          forall i | 0 <= i < |q| ensures m in q[i] {
            var j :| 0 <= j < |xs| && MembersOf(xs[j]) == q[i];
          }
        }
      }
    }
  }

  lemma {:induction false} AllPresent(xs: seq<Source>)
    requires xs != [] && AllSets(xs) && Stored(xs)
    ensures (forall i :: 0 <= i < |xs| ==> xs[i] != Absent) ==> CommonOfPresent(xs) == Common(xs)
    ensures (exists i :: 0 <= i < |xs| && xs[i] == Absent) ==> Common(xs) == {}
  {
    if forall i :: 0 <= i < |xs| ==> xs[i] != Absent {
      forall m ensures m in CommonOfPresent(xs) <==> m in Common(xs) {
        if m in Common(xs) { assert m in MembersOf(xs[0]) && InAllPresent(xs, m); }
        if m in CommonOfPresent(xs) {
          forall i | 0 <= i < |xs| ensures m in MembersOf(xs[i]) { assert MembersOf(xs[i]) != {}; }
        }
      }
    } else {
      var i :| 0 <= i < |xs| && xs[i] == Absent;
      forall m ensures m !in Common(xs) { assert m !in MembersOf(xs[i]); }
    }
  }

  lemma {:induction false} InterRestIs(acc: set<bytes>, xs: seq<Source>)
    requires acc != {} && Stored(xs)
    ensures var all := [Holding(acc)] + Typed(xs);
            Same(InterRest(acc, xs), if Common(all) == {} then EmptyArray else if |Typed(xs)| < |xs| then WrongType else Members(Common(all)))
    decreases |xs|
  {
    var p := Typed(xs);
    if p == [] {
      assert Common([Holding(acc)] + p) == acc;
    } else {
      var both := acc * MembersOf(xs[0]);
      assert p[1..] == Typed(xs[1..]);
      CommonStep(acc, p);
      if both == {} {
        assert Common([Holding(both)] + p[1..]) == {};
      } else {
        InterRestIs(both, xs[1..]);
      }
    }
  }

  lemma {:induction false} InterMeans(xs: seq<Source>)
    requires xs != [] && Stored(xs)
    ensures var p := Typed(xs);
            Same(Inter(xs), if p != [] && Common(p) == {} then EmptyArray else if |p| < |xs| then WrongType else Members(Common(xs)))
  {
    var p := Typed(xs);
    if xs[0].Has? {
      assert p[1..] == Typed(xs[1..]) && [xs[0]] + p[1..] == p;
      OnlyMembersCount(xs[0], p[1..]);
      InterRestIs(xs[0].held.members, xs[1..]);
    } else if xs[0].Absent? {
      assert p[0] == Absent;
      assert Common(p) == {};
    }
  }

  /**
   SINTER over the nodes is right when a source is absent on the node that runs it, and otherwise when no empty
   source is overlooked: none is absent, or those present have nothing in common anyway.
   */
  ghost predicate InterIsRight(xs: seq<Source>, away: seq<bool>)
    requires xs != [] && |away| == |xs|
  {
    var p := Typed(xs);
    || |xs| == 1
    || AbsentHere(p, away)
    || (if |p| < |xs| then p == [] || Common(p) != {}
        else (forall i :: 0 <= i < |xs| ==> xs[i] != Absent) || CommonOfPresent(xs) == {})
  }

  lemma {:induction false} SameInterExactly(xs: seq<Source>, away: seq<bool>)
    requires xs != [] && |away| == |xs| && Stored(xs)
    ensures Same(ClusterInter(AllSeen(xs, away)), Inter(xs)) <==> InterIsRight(xs, away)
  {
    var p := Typed(xs);
    InterMeans(xs);
    if |xs| == 1 {
      assert xs[0].Has? ==> p == xs && Common(xs) == xs[0].held.members;
    } else {
      GatherIs(xs, away);
      if AbsentHere(p, away) {
        AllPresentIn(p, away, xs);
      } else if |p| == |xs| {
        assert p == xs;
        MeetGathers(Gather(AllSeen(xs, away)).q, xs);
        AllPresent(xs);
      }
    }
  }

  lemma {:induction false} AllPresentIn(p: seq<Source>, away: seq<bool>, xs: seq<Source>)
    requires p <= xs && |away| == |xs| && AllSets(p) && Stored(xs) && AbsentHere(p, away)
    ensures p != [] && Common(p) == {}
  {
    AllPresent(p);
  }

  // ----- on one node, order by order -----

  /** The orders in which the sources are gone through. */
  ghost predicate Goes(orders: seq<seq<bytes>>, xs: seq<Source>) {
    |orders| == |xs| && forall i :: 0 <= i < |xs| ==> Lists(orders[i], MembersOf(xs[i]))
  }

  /** Sources whose members are never merged, in states that a HashSet can be in. */
  ghost predicate Plain(xs: seq<Source>) {
    forall i :: 0 <= i < |xs| && xs[i].Has? ==> Sound(xs[i].held) && AllFaithful(xs[i].held.members)
  }

  /** The result set of execSUnion, or None when a source is no set. */
  function UnionState(xs: seq<Source>, orders: seq<seq<bytes>>): Option<SetState>
    requires |orders| == |xs|
  {
    if xs == [] then Some(NO_MEMBERS)
    else
      var n := |xs| - 1;
      match UnionState(xs[..n], orders[..n])
      case None => None
      case Some(acc) => if xs[n] == Wrong then None else Some(WithAll(acc, orders[n]))
  }

  function UnionBy(xs: seq<Source>, orders: seq<seq<bytes>>): Answer
    requires |orders| == |xs|
  {
    match UnionState(xs, orders)
    case None => WrongType
    case Some(acc) => Members(acc.members)
  }

  /** What one round of execSInter leaves of the result. */
  function KeepCommon(acc: SetState, cur: SetState): SetState {
    SetState((set m | m in acc.members && Holds(cur, m)), acc.isIntset)
  }

  function InterRestBy(acc: SetState, xs: seq<Source>): Answer
    decreases |xs|
  {
    if xs == [] then Members(acc.members)
    else match xs[0]
      case Wrong => WrongType
      case Absent => EmptyArray
      case Has(x) => if KeepCommon(acc, x).members == {} then EmptyArray else InterRestBy(KeepCommon(acc, x), xs[1..])
  }

  function InterBy(xs: seq<Source>, orders: seq<seq<bytes>>): Answer
    requires |orders| == |xs|
  {
    if xs == [] then EmptyArray
    else match xs[0]
      case Wrong => WrongType
      case Absent => EmptyArray
      case Has(_) => InterRestBy(Poured(orders[0]), xs[1..])
  }

  function DiffRestBy(acc: SetState, xs: seq<Source>, orders: seq<seq<bytes>>): Answer
    requires |orders| == |xs|
    decreases |xs|
  {
    if xs == [] then Members(acc.members)
    else match xs[0]
      case Wrong => WrongType
      case Absent => DiffRestBy(acc, xs[1..], orders[1..])
      case Has(_) =>
        var left := WithoutAll(acc, orders[0]);
        if left.members == {} then EmptyArray else DiffRestBy(left, xs[1..], orders[1..])
  }

  function DiffBy(xs: seq<Source>, orders: seq<seq<bytes>>): Answer
    requires |orders| == |xs|
  {
    if xs == [] then EmptyArray
    else match xs[0]
      case Wrong => WrongType
      case Absent => EmptyArray
      case Has(_) => DiffRestBy(Poured(orders[0]), xs[1..], orders[1..])
  }

  // ----- where the orders do not matter -----

  lemma {:induction false} UnionStateIs(xs: seq<Source>, orders: seq<seq<bytes>>)
    requires Plain(xs) && Goes(orders, xs)
    ensures match UnionState(xs, orders)
            case None => Union(xs) == WrongType
            case Some(acc) => Union(xs) == Members(acc.members) && acc == Fresh(acc.members) && AllFaithful(acc.members)
  {
    if xs != [] {
      var n := |xs| - 1;
      UnionStateIs(xs[..n], orders[..n]);
      assert Lists(orders[n], MembersOf(xs[n])) && AllFaithful(MembersOf(xs[n]));
      if UnionState(xs[..n], orders[..n]).Some? && xs[n] != Wrong {
        FreshAdds(UnionState(xs[..n], orders[..n]).value.members, orders[n]);
      }
    }
  }

  lemma {:induction false} FreshAdds(s: set<bytes>, q: seq<bytes>)
    requires AllFaithful(s) && AllFaithful(Elements(q))
    ensures WithAll(Fresh(s), q) == Fresh(s + Elements(q)) && AllFaithful(s + Elements(q))
  {
    FaithfulAdds(Fresh(s), q);
    SubsetSize(s, s + Elements(q));
    assert AllInts(s + Elements(q)) <==> AllInts(s) && AllInts(Elements(q)) by {
      if AllInts(s + Elements(q)) {
        forall m | m in s ensures ParseInt(m).Some? { assert m in s + Elements(q); }
        forall m | m in Elements(q) ensures ParseInt(m).Some? { assert m in s + Elements(q); }
      }
    }
  }

  /** On one node SUNION gives the members of all sources, or an error when one of them is no set. */
  lemma {:induction false} UnionIs(xs: seq<Source>, orders: seq<seq<bytes>>)
    requires Plain(xs) && Goes(orders, xs)
    ensures UnionBy(xs, orders) == if AllSets(xs) then Members(InAny(xs)) else WrongType
  {
    UnionStateIs(xs, orders);
    UnionMeans(xs);
  }

  lemma {:induction false} KeepsCommon(acc: SetState, x: SetState)
    requires AllFaithful(acc.members) && Sound(x)
    ensures KeepCommon(acc, x).members == acc.members * x.members
  {
    forall m | m in acc.members ensures Holds(x, m) <==> m in x.members {
      assert Faithful(x.isIntset, m);
      WithExactly(x, m);
    }
  }

  lemma {:induction false} InterRestByIs(acc: SetState, xs: seq<Source>)
    requires AllFaithful(acc.members) && Plain(xs)
    ensures InterRestBy(acc, xs) == InterRest(acc.members, xs)
    decreases |xs|
  {
    if xs != [] && xs[0].Has? {
      KeepsCommon(acc, xs[0].held);
      InterRestByIs(KeepCommon(acc, xs[0].held), xs[1..]);
    }
  }

  lemma {:induction false} FirstPoured(xs: seq<Source>, orders: seq<seq<bytes>>)
    requires xs != [] && xs[0].Has? && Plain(xs) && Goes(orders, xs)
    ensures Poured(orders[0]).members == xs[0].held.members && Sound(Poured(orders[0]))
  {
    assert Lists(orders[0], MembersOf(xs[0]));
    FaithfulPour(orders[0]);
    WithAllStaysSound(NO_MEMBERS, orders[0]);
  }

  lemma {:induction false} InterByIs(xs: seq<Source>, orders: seq<seq<bytes>>)
    requires Plain(xs) && Goes(orders, xs)
    ensures InterBy(xs, orders) == Inter(xs)
  {
    if xs != [] && xs[0].Has? {
      FirstPoured(xs, orders);
      InterRestByIs(Poured(orders[0]), xs[1..]);
    }
  }

  /**
   On one node SINTER gives the members common to all sources; a source of another type is an error unless the
   sources in front of it have nothing in common.
   */
  lemma {:induction false} InterIs(xs: seq<Source>, orders: seq<seq<bytes>>)
    requires xs != [] && Stored(xs) && Plain(xs) && Goes(orders, xs)
    ensures var p := Typed(xs);
            Same(InterBy(xs, orders),
                 if p != [] && Common(p) == {} then EmptyArray else if |p| < |xs| then WrongType else Members(Common(xs)))
  {
    InterByIs(xs, orders);
    InterMeans(xs);
  }

  lemma {:induction false} DiffRestByIs(acc: SetState, xs: seq<Source>, orders: seq<seq<bytes>>)
    requires Sound(acc) && Plain(xs) && Goes(orders, xs)
    ensures DiffRestBy(acc, xs, orders) == DiffRest(acc.members, xs)
    decreases |xs|
  {
    if xs != [] {
      if xs[0].Has? {
        assert Lists(orders[0], MembersOf(xs[0]));
        FaithfulRemoves(acc, orders[0]);
        var left := WithoutAll(acc, orders[0]);
        SubsetSize(left.members, acc.members);
        DiffRestByIs(left, xs[1..], orders[1..]);
      } else {
        DiffRestByIs(acc, xs[1..], orders[1..]);
      }
    }
  }

  lemma {:induction false} DiffByIs(xs: seq<Source>, orders: seq<seq<bytes>>)
    requires Plain(xs) && Goes(orders, xs)
    ensures DiffBy(xs, orders) == Diff(xs)
  {
    if xs != [] && xs[0].Has? {
      FirstPoured(xs, orders);
      DiffRestByIs(Poured(orders[0]), xs[1..], orders[1..]);
    }
  }

  /** On one node SDIFF gives the members of the first source that no other source has. */
  lemma {:induction false} DiffIs(xs: seq<Source>, orders: seq<seq<bytes>>)
    requires xs != [] && AllSets(xs) && Plain(xs) && Goes(orders, xs)
    ensures Same(DiffBy(xs, orders), Members(OnlyInFirst(xs)))
  {
    DiffByIs(xs, orders);
    DiffMeans(xs);
  }

  /** One source: SINTER gives its members whatever the order exactly when none of them can be merged. */
  lemma {:induction false} OneSourceExactly(x: SetState)
    requires Sound(x)
    ensures (forall q :: Lists(q, x.members) ==> InterBy([Has(x)], [q]) == Members(x.members)) <==> AllFaithful(x.members)
  {
    var xs := [Has(x)];
    assert xs[1..] == [];
    forall q ensures InterBy(xs, [q]) == Members(Poured(q).members) { }
    if AllFaithful(x.members) {
      forall q | Lists(q, x.members) ensures Poured(q).members == x.members { FaithfulPour(q); }
    } else {
      var u :| u in x.members && !Faithful(true, u);
      var r := ListingEndingIn(x.members, u);
      FirstIsMerged(r, x.members, u);
      assert InterBy(xs, [[u] + r]) != Members(x.members);
    }
  }

  // ----- the cluster against one node -----

  /** setUnionFunc with its result set: the members of each array are added in the order of the reply. */
  function ClusterUnionState(ys: seq<Answer>, orders: seq<seq<bytes>>): (Option<SetState>, Answer)
    requires |orders| == |ys|
  {
    if ys == [] then (Some(NO_MEMBERS), Members({}))
    else
      var n := |ys| - 1;
      match ClusterUnionState(ys[..n], orders[..n])
      case (None, a) => (None, a)
      case (Some(acc), _) =>
        match ys[n]
        case Members(_) => (Some(WithAll(acc, orders[n])), Members(WithAll(acc, orders[n]).members))
        case EmptyArray => (Some(acc), Members(acc.members))
        case e => (None, e)
  }

  function ClusterUnionBy(ys: seq<Answer>, orders: seq<seq<bytes>>): Answer
    requires |orders| == |ys|
  {
    ClusterUnionState(ys, orders).1
  }

  /** A union over the nodes is what one node answers when it goes through the sources in the same orders. */
  lemma {:induction false} UnionAgrees(xs: seq<Source>, away: seq<bool>, orders: seq<seq<bytes>>)
    requires |away| == |xs| && Goes(orders, xs)
    ensures ClusterUnionBy(AllSeen(xs, away), orders) == UnionBy(xs, orders)
    ensures ClusterUnionState(AllSeen(xs, away), orders).0 == UnionState(xs, orders)
  {
    if xs != [] {
      var n := |xs| - 1;
      UnionAgrees(xs[..n], away[..n], orders[..n]);
      assert AllSeen(xs, away)[..n] == AllSeen(xs[..n], away[..n]);
      assert Lists(orders[n], MembersOf(xs[n]));
      assert MembersOf(xs[n]) == {} ==> orders[n] == [];
    }
  }

  /** SINTER over the nodes agrees with one node exactly when no empty source is overlooked. */
  lemma {:induction false} InterExactly(xs: seq<Source>, away: seq<bool>, orders: seq<seq<bytes>>)
    requires xs != [] && |away| == |xs| && Stored(xs) && Plain(xs) && Goes(orders, xs)
    ensures Same(ClusterInter(AllSeen(xs, away)), InterBy(xs, orders)) <==> InterIsRight(xs, away)
  {
    InterByIs(xs, orders);
    SameInterExactly(xs, away);
  }

  /** SDIFF over the nodes agrees with one node exactly when its first source allows it. */
  lemma {:induction false} DiffExactly(xs: seq<Source>, away: seq<bool>, orders: seq<seq<bytes>>)
    requires xs != [] && |away| == |xs| && Stored(xs) && Plain(xs) && Goes(orders, xs)
    ensures Same(ClusterDiff(AllSeen(xs, away)), DiffBy(xs, orders)) <==> DiffIsRight(xs, away)
  {
    DiffByIs(xs, orders);
    SameDiffExactly(xs, away);
  }

  /** An absent source on another node is overlooked by SINTER and makes SDIFF fail. */
  lemma {:induction false} AbsentElsewhere(m: bytes)
    ensures ClusterInter(AllSeen([Holding({m}), Absent], [false, true])) == Members({m})
    ensures Inter([Holding({m}), Absent]) == EmptyArray
    ensures ClusterDiff(AllSeen([Absent], [true])) == Unknown && Diff([Absent]) == EmptyArray
  {
    var xs, away := [Holding({m}), Absent], [false, true];
    var ys := AllSeen(xs, away);
    assert ys[..2] == ys && ys[..1][..0] == [];
    assert Gather(ys[..0]) == Sets([]) && [] + [{m}] == [{m}];
    assert Gather(ys[..1]) == Sets([{m}]);
    assert Meet([{m}]) == {m};
  }
}
