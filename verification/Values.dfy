/**
 What the data structures of datastruct/ stand for: a set of strings with the mode of its HashSet, and a map from
 members to scores with the encoding of its ZSet. Modules HashSet and ZSet show that the classes behave like these.
 */
module Values {
  import opened Bytes
  import opened Collections
  import opened Decimal

  // ----- sets -----

  const MAX_INTSET_ENTRIES := 512

  /** What a set in the given mode takes a member for: an integer set keeps numbers, not texts. */
  function Taken(isIntset: bool, member: bytes): bytes {
    if isIntset && ParseInt(member).Some? then FormatInt(ParseInt(member).value) else member
  }

  /** The member is taken for itself. */
  predicate Faithful(isIntset: bool, member: bytes) {
    !isIntset || ParseInt(member).None? || IsCanonical(member)
  }

  lemma {:induction false} FaithfulExactly(isIntset: bool, member: bytes)
    ensures Faithful(isIntset, member) <==> Taken(isIntset, member) == member
  {
  }

  /** The members of a HashSet, and whether it is still an integer set. */
  datatype SetState = SetState(members: set<bytes>, isIntset: bool)

  const NO_MEMBERS := SetState({}, true)

  /** What Contains answers. */
  predicate Holds(x: SetState, member: bytes) {
    (x.isIntset ==> ParseInt(member).Some?) && Taken(x.isIntset, member) in x.members
  }

  /** What Add leaves: an integer set is converted by a member that is no integer and by one number too many. */
  function With(x: SetState, member: bytes): SetState {
    if Holds(x, member) then x
    else
      var y := x.members + {Taken(x.isIntset, member)};
      SetState(y, x.isIntset && ParseInt(member).Some? && |y| <= MAX_INTSET_ENTRIES)
  }

  function WithAll(x: SetState, q: seq<bytes>): SetState {
    if q == [] then x else With(WithAll(x, q[..|q| - 1]), q[|q| - 1])
  }

  /** What Remove leaves; the mode stays. */
  function Without(x: SetState, member: bytes): SetState {
    if Holds(x, member) then SetState(x.members - {Taken(x.isIntset, member)}, x.isIntset) else x
  }

  function WithoutAll(x: SetState, q: seq<bytes>): SetState {
    if q == [] then x else Without(WithoutAll(x, q[..|q| - 1]), q[|q| - 1])
  }

  /** States that a HashSet can be in: an integer set holds few members, all of them canonical decimals. */
  ghost predicate Sound(x: SetState) {
    x.isIntset ==> |x.members| <= MAX_INTSET_ENTRIES && forall m :: m in x.members ==> IsCanonical(m)
  }

  lemma {:induction false} TakenIsCanonical(member: bytes)
    requires ParseInt(member).Some?
    ensures IsCanonical(Taken(true, member))
  {
    ParseIntAfterFormat(ParseInt(member).value);
  }

  lemma {:induction false} WithStaysSound(x: SetState, member: bytes)
    requires Sound(x)
    ensures Sound(With(x, member)) && Sound(Without(x, member))
  {
    if ParseInt(member).Some? { TakenIsCanonical(member); }
    SubsetSize(Without(x, member).members, x.members);
  }

  /** A set gains the member itself, or loses it, exactly when it takes the member for itself. */
  lemma {:induction false} WithExactly(x: SetState, member: bytes)
    requires Sound(x)
    ensures var t := Taken(x.isIntset, member);
            && With(x, member).members == x.members + {t} && Without(x, member).members == x.members - {t}
            && (Holds(x, member) <==> t in x.members)
    ensures With(x, member).members == x.members + {member} <==> Faithful(x.isIntset, member)
    ensures Without(x, member).members == x.members - {member} <==> Faithful(x.isIntset, member) || !Holds(x, member)
    ensures Holds(x, member) == (member in x.members) <==> Faithful(x.isIntset, member) || !Holds(x, member)
  {
    var t := Taken(x.isIntset, member);
    FaithfulExactly(x.isIntset, member);
    if x.isIntset && ParseInt(member).Some? && !IsCanonical(member) { assert member !in x.members; }
    if t in x.members { assert x.members + {t} == x.members; } else { assert x.members - {t} == x.members; }
  }

  /** An integer set stays one as long as only integers come, and up to 512 of them; removing changes no mode. */
  lemma {:induction false} ModeExactly(x: SetState, member: bytes)
    requires Sound(x)
    ensures With(x, member).isIntset <==> x.isIntset && ParseInt(member).Some? && |With(x, member).members| <= 512
    ensures Without(x, member).isIntset == x.isIntset
  {
  }

  lemma {:induction false} WithAllConcat(x: SetState, p: seq<bytes>, q: seq<bytes>)
    ensures WithAll(x, p + q) == WithAll(WithAll(x, p), q)
    decreases |q|
  {
    if q == [] {
      assert p + q == p;
    } else {
      var n := |q| - 1;
      assert (p + q)[..|p + q| - 1] == p + q[..n];
      WithAllConcat(x, p, q[..n]);
    }
  }

  lemma {:induction false} WithAllStaysSound(x: SetState, q: seq<bytes>)
    requires Sound(x)
    ensures Sound(WithAll(x, q))
  {
    if q != [] {
      WithAllStaysSound(x, q[..|q| - 1]);
      WithStaysSound(WithAll(x, q[..|q| - 1]), q[|q| - 1]);
    }
  }

  // ----- members that are never merged -----

  /** Members that are no integers or canonical decimals. */
  predicate AllFaithful(s: set<bytes>) {
    forall m :: m in s ==> Faithful(true, m)
  }

  predicate AllInts(s: set<bytes>) {
    forall m :: m in s ==> ParseInt(m).Some?
  }

  /** The state of a new HashSet after faithful members have been added to it. */
  function Fresh(s: set<bytes>): SetState {
    SetState(s, AllInts(s) && |s| <= MAX_INTSET_ENTRIES)
  }

  /** Faithful members are added as they are, and the mode afterwards follows from the members. */
  lemma {:induction false} FaithfulAdds(x: SetState, q: seq<bytes>)
    requires Sound(x) && AllFaithful(Elements(q))
    ensures WithAll(x, q).members == x.members + Elements(q)
    ensures WithAll(x, q).isIntset <==>
              x.isIntset && AllInts(Elements(q)) && |x.members + Elements(q)| <= MAX_INTSET_ENTRIES
  {
    if q == [] {
      assert x.members + Elements(q) == x.members;
    } else {
      var n := |q| - 1;
      var p, m := q[..n], q[n];
      assert q == p + [m];
      ElementsMore(p, m);
      FaithfulAdds(x, p);
      FaithfulExactly(WithAll(x, p).isIntset, m);
      assert x.members + Elements(q) == x.members + Elements(p) + {m};
      SubsetSize(x.members + Elements(p), x.members + Elements(q));
    }
  }

  /** In whatever order faithful members come, a new set is the same afterwards. */
  lemma {:induction false} FaithfulPour(q: seq<bytes>)
    requires AllFaithful(Elements(q))
    ensures WithAll(NO_MEMBERS, q) == Fresh(Elements(q))
  {
    FaithfulAdds(NO_MEMBERS, q);
    assert NO_MEMBERS.members + Elements(q) == Elements(q);
  }

  /** Members that the set takes for themselves are removed as they are. */
  lemma {:induction false} FaithfulRemoves(x: SetState, q: seq<bytes>)
    requires Sound(x) && forall m :: m in Elements(q) ==> Faithful(x.isIntset, m)
    ensures WithoutAll(x, q) == SetState(x.members - Elements(q), x.isIntset)
  {
    if q == [] {
      assert x.members - Elements(q) == x.members;
    } else {
      var n := |q| - 1;
      var p, m := q[..n], q[n];
      assert q == p + [m];
      ElementsMore(p, m);
      FaithfulRemoves(x, p);
      FaithfulExactly(x.isIntset, m);
      assert x.members - Elements(p) - {m} == x.members - Elements(q);
    }
  }

  // ----- scores -----

  const LISTPACK_MAX_SIZE := 128

  /** The text `%f` keeps six decimals, so a score text stands for a whole number of millionths. */
  type ScoreText = int

  /** Round to the nearest millionth, ties to even. */
  function FormatScore(score: real): ScoreText {
    var y := score * 1000000.0;
    var f := y.Floor;
    var d := y - f as real;
    if d < 0.5 || (d == 0.5 && f % 2 == 0) then f else f + 1
  }

  function ParseScore(text: ScoreText): real {
    text as real / 1000000.0
  }

  lemma FormatAfterParse(text: ScoreText)
    ensures FormatScore(ParseScore(text)) == text
  {
    assert ParseScore(text) * 1000000.0 == text as real;
    assert (text as real).Floor == text;
  }

  /** What a listpack entry remembers of a score. */
  function Kept(score: real): real {
    ParseScore(FormatScore(score))
  }

  /** The text is the nearest whole number of millionths, and of two equally near ones the even one. */
  lemma {:induction false} FormatScoreIsNearest(score: real, text: ScoreText)
    ensures FormatScore(score) == text <==>
              var off := 2.0 * (score * 1000000.0 - text as real); -1.0 <= off <= 1.0 && (off in {-1.0, 1.0} ==> text % 2 == 0)
  {
    var y := score * 1000000.0;
    assert y.Floor as real <= y < y.Floor as real + 1.0;
  }

  /** A kept score is at most half a millionth off, and not off at all exactly when six decimals are enough. */
  lemma {:induction false} KeptIsClose(score: real)
    ensures -0.0000005 <= Kept(score) - score <= 0.0000005
    ensures Kept(score) == score <==> (score * 1000000.0).Floor as real == score * 1000000.0
  {
    var t := FormatScore(score);
    FormatScoreIsNearest(score, t);
    assert Kept(score) * 1000000.0 == t as real;
    FormatScoreIsNearest(score, (score * 1000000.0).Floor);
  }

  /** 0.1234567 is kept as 0.123457, and the halves 0.0000005 and 0.0000015 as 0 and 0.000002. */
  lemma {:induction false} RoundedScores()
    ensures Kept(0.1234567) == 0.123457 && Kept(0.0000005) == 0.0 && Kept(0.0000015) == 0.000002 && Kept(-2.5) == -2.5
  {
    FormatScoreIsNearest(0.1234567, 123457);
    FormatScoreIsNearest(0.0000005, 0);
    FormatScoreIsNearest(0.0000015, 2);
    FormatScoreIsNearest(-2.5, -2500000);
  }

  /** A tenth of a millionth is kept as nothing. */
  lemma TinyScoreIsLost()
    ensures Kept(0.0000001) == 0.0
  {
    assert 0.0000001 * 1000000.0 == 0.1;
    assert (0.1).Floor == 0;
  }

  /** The scores of a ZSet, and whether it is still a listpack. */
  datatype ZState = ZState(scores: map<bytes, real>, isListpack: bool)

  const NO_SCORES := ZState(map[], true)

  function Scored(z: ZState, member: bytes, score: real): ZState {
    var s := z.scores[member := if z.isListpack then Kept(score) else score];
    ZState(s, z.isListpack && |s| <= LISTPACK_MAX_SIZE)
  }

  /** Only the member's score changes, by rounding in a listpack alone; a listpack stays one up to 128 members. */
  lemma {:induction false} ScoredMeans(z: ZState, member: bytes, score: real)
    ensures var y := Scored(z, member, score);
            && y.scores.Keys == z.scores.Keys + {member} && (forall m :: m in z.scores && m != member ==> y.scores[m] == z.scores[m])
            && -0.0000005 <= y.scores[member] - score <= 0.0000005 && (!z.isListpack ==> y.scores[member] == score)
            && (y.isListpack <==> z.isListpack && |y.scores| <= 128)
  {
    KeptIsClose(score);
  }
}
