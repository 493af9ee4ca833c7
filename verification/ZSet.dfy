/**
 The sorted set of datastruct/zset/zset.go: a listpack of (member, score text) entries that becomes a dict plus
 a skip list once it holds more than 128 members. One map from members to scores is its meaning in both encodings.
 */
module ZSet {
  import opened Bytes
  import opened Values
  import opened SL = SkipList

  datatype Entry = Entry(member: bytes, text: ScoreText)

  function PairOf(e: Entry): Pair {
    Pair(e.member, ParseScore(e.text))
  }

  function PairsOf(l: seq<Entry>): (s: seq<Pair>)
    ensures |s| == |l| && forall i :: 0 <= i < |l| ==> s[i] == PairOf(l[i])
  {
    seq(|l|, i requires 0 <= i < |l| => PairOf(l[i]))
  }

  predicate Apart(s: seq<Pair>, i: nat, j: nat)
    requires i < |s| && j < |s|
  {
    s[i].member != s[j].member
  }

  ghost predicate Unique(s: seq<Pair>) {
    forall i, j {:trigger Apart(s, i, j)} :: 0 <= i < j < |s| ==> Apart(s, i, j)
  }

  /** The sequence holds every entry of the map, exactly once. */
  ghost predicate Denotes(s: seq<Pair>, m: map<bytes, real>) {
    Unique(s) && |s| == |m| && forall x: Pair :: x in s <==> x.member in m && m[x.member] == x.score
  }

  lemma {:induction false} InsertedMembers<T>(s: seq<T>, r: seq<T>, k: nat, x: T)
    requires Inserted(s, r, k, x)
    ensures forall y :: y in r <==> y in s || y == x
  {
    forall y | y in r ensures y in s || y == x {
      var i :| 0 <= i < |r| && r[i] == y;
    }
    forall y | y in s ensures y in r {
      var i :| 0 <= i < |s| && s[i] == y;
    }
  }

  lemma {:induction false} AbsentMember(s: seq<Pair>, m: map<bytes, real>, x: bytes)
    requires Denotes(s, m) && forall i :: 0 <= i < |s| ==> s[i].member != x
    ensures x !in m
  {
    forall y | y in m ensures y != x {
      assert Pair(y, m[y]) in s;
    }
  }

  lemma {:induction false} DenotesInsert(s: seq<Pair>, s': seq<Pair>, m: map<bytes, real>, k: nat, x: Pair)
    requires Denotes(s, m) && x.member !in m && Inserted(s, s', k, x)
    ensures Denotes(s', m[x.member := x.score])
  {
    InsertedMembers(s, s', k, x);
    forall i, j | 0 <= i < j < |s'| ensures Apart(s', i, j) {
      if i == k {
        assert s'[j] == s[j - 1] && s[j - 1] in s;
      } else if j == k {
        assert s'[i] == s[i] && s[i] in s;
      } else {
        assert Apart(s, if i < k then i else i - 1, if j < k then j else j - 1);
      }
    }
  }

  lemma {:induction false} DenotesRemove(s: seq<Pair>, s': seq<Pair>, m: map<bytes, real>, k: nat)
    requires Denotes(s, m) && k < |s| && Inserted(s', s, k, s[k])
    ensures s[k].member in m && m[s[k].member] == s[k].score
    ensures Denotes(s', m - {s[k].member})
  {
    var x := s[k];
    assert x in s;
    InsertedMembers(s', s, k, x);
    assert m.Keys == (m - {x.member}).Keys + {x.member};
    forall i | 0 <= i < |s'| ensures s'[i].member != x.member {
      if i < k { assert Apart(s, i, k); } else { assert Apart(s, k, i + 1); }
    }
    forall i, j | 0 <= i < j < |s'| ensures Apart(s', i, j) {
      assert Apart(s, if i < k then i else i + 1, if j < k then j else j + 1);
    }
  }

  lemma {:induction false} DenotesReplace(s: seq<Pair>, m: map<bytes, real>, k: nat, score: real)
    requires Denotes(s, m) && k < |s|
    ensures Denotes(s[k := Pair(s[k].member, score)], m[s[k].member := score])
  {
    var x, y := s[k], Pair(s[k].member, score);
    var s' := s[k := y];
    var t := RemoveAt(s, k);
    DenotesRemove(s, t, m, k);
    assert Inserted(t, s', k, y);
    DenotesInsert(t, s', m - {x.member}, k, y);
    assert (m - {x.member})[x.member := score] == m[x.member := score];
  }

  // ----- counting and ranking -----

  ghost function MembersInRange(m: map<bytes, real>, min: real, max: real): set<bytes> {
    set x | x in m && min <= m[x] <= max
  }

  ghost function NamesInRange(s: seq<Pair>, min: real, max: real): set<bytes> {
    set x | x in s && min <= x.score <= max :: x.member
  }

  lemma {:induction false} UniqueTail(s: seq<Pair>)
    requires Unique(s) && s != []
    ensures Unique(s[1..]) && forall x :: x in s[1..] ==> x.member != s[0].member
  {
    var t := s[1..];
    forall i, j | 0 <= i < j < |t| ensures Apart(t, i, j) { assert Apart(s, i + 1, j + 1); }
    forall i | 0 <= i < |t| ensures t[i].member != s[0].member { assert Apart(s, 0, i + 1); }
  }

  lemma {:induction false} InRangeNames(s: seq<Pair>, min: real, max: real)
    requires Unique(s)
    ensures |InRange(s, min, max)| == |NamesInRange(s, min, max)|
  {
    if s != [] {
      UniqueTail(s);
      InRangeNames(s[1..], min, max);
      NamesOfTail(s, min, max);
    }
  }

  lemma {:induction false} NamesOfTail(s: seq<Pair>, min: real, max: real)
    requires s != []
    ensures NamesInRange(s, min, max)
         == NamesInRange(s[1..], min, max) + (if min <= s[0].score <= max then {s[0].member} else {})
  {
    assert s == [s[0]] + s[1..];
  }

  /** The pairs in a score range are as many as the members of the map in that range. */
  lemma {:induction false} CountAgrees(s: seq<Pair>, m: map<bytes, real>, min: real, max: real)
    requires Denotes(s, m)
    ensures |InRange(s, min, max)| == |MembersInRange(m, min, max)|
  {
    InRangeNames(s, min, max);
    forall x | x in MembersInRange(m, min, max) ensures x in NamesInRange(s, min, max) { assert Pair(x, m[x]) in s; }
    assert NamesInRange(s, min, max) == MembersInRange(m, min, max);
  }

  /** An order of all entries of the map by score; equal scores may come in any order. */
  ghost predicate Ranks(order: seq<Pair>, m: map<bytes, real>) {
    Denotes(order, m) && ByScore(order)
  }

  lemma {:induction false} SortedRanks(s: seq<Pair>, m: map<bytes, real>)
    requires Denotes(s, m) && Sorted(s)
    ensures Ranks(s, m)
  {
    forall i, j | 0 <= i < j < |s| ensures s[i].score <= s[j].score { assert Ordered(s, i, j); }
  }

  lemma {:induction false} DenotesUnique(s: seq<Pair>, m: map<bytes, real>, m': map<bytes, real>)
    requires Denotes(s, m) && Denotes(s, m')
    ensures m == m'
  {
    forall x | x in m ensures x in m' && m'[x] == m[x] { assert Pair(x, m[x]) in s; }
    forall x | x in m' ensures x in m { assert Pair(x, m'[x]) in s; }
  }

  /** One more entry. */
  lemma {:induction false} DenotesPrefix(s: seq<Pair>, i: nat, m: map<bytes, real>)
    requires i < |s| && Unique(s) && Denotes(s[..i], m)
    ensures s[i].member !in m
    ensures Denotes(s[..i + 1], m[s[i].member := s[i].score])
  {
    forall j | 0 <= j < i ensures s[..i][j].member != s[i].member { assert Apart(s, j, i); }
    AbsentMember(s[..i], m, s[i].member);
    assert Inserted(s[..i], s[..i + 1], i, s[i]);
    DenotesInsert(s[..i], s[..i + 1], m, i, s[i]);
  }

  /** Skip list and dict hold the same pairs, each member once. */
  ghost predicate Mirrors(s: seq<Pair>, m: map<bytes, real>) {
    Sorted(s) && Denotes(s, m)
  }

  lemma {:induction false} MirrorsInsert(s: seq<Pair>, s': seq<Pair>, m: map<bytes, real>, x: Pair)
    requires Mirrors(s, m) && x.member !in m && Inserted(s, s', Cut(s, AtPair(x)), x)
    ensures Mirrors(s', m[x.member := x.score])
  {
    InsertKeepsOrder(s, s', x);
    DenotesInsert(s, s', m, Cut(s, AtPair(x)), x);
  }

  lemma {:induction false} MirrorsRemove(s: seq<Pair>, s': seq<Pair>, m: map<bytes, real>, x: Pair)
    requires Mirrors(s, m) && x in s && Inserted(s', s, Cut(s, AtPair(x)), x)
    ensures Mirrors(s', m - {x.member})
  {
    RemoveKeepsOrder(s, s', Cut(s, AtPair(x)));
    DenotesRemove(s, s', m, Cut(s, AtPair(x)));
  }

  lemma {:induction false} MirrorsReplace(s: seq<Pair>, t: seq<Pair>, s': seq<Pair>, m: map<bytes, real>, x: Pair, y: Pair)
    requires Mirrors(s, m) && x in s && x.member == y.member
    requires Inserted(t, s, Cut(s, AtPair(x)), x) && Inserted(t, s', Cut(t, AtPair(y)), y)
    ensures Mirrors(s', m[y.member := y.score])
  {
    MirrorsRemove(s, t, m, x);
    MirrorsInsert(t, s', m - {x.member}, y);
    assert (m - {x.member})[y.member := y.score] == m[y.member := y.score];
  }

  datatype Encoding = Listpack | Skiplist

  class ZSet {
    var encoding: Encoding
    var listpack: seq<Entry>
    var dict: map<bytes, real>
    var skiplist: SkipList?

    /** The abstract value: the score of every member. */
    ghost var scores: map<bytes, real>

    ghost function Nodes(): set<Node>
      reads this, skiplist
    {
      if skiplist == null then {} else set n | n in skiplist.all
    }

    ghost predicate Valid()
      reads this, skiplist, Nodes()
    {
      match encoding
      case Listpack => Denotes(PairsOf(listpack), scores) && |listpack| <= LISTPACK_MAX_SIZE
      case Skiplist => skiplist != null && skiplist.Valid() && Mirrors(skiplist.pairs, dict) && scores == dict
    }

    /** What the set stands for. */
    ghost function State(): ZState
      reads this
    {
      ZState(scores, encoding == Listpack)
    }

    constructor ()
      ensures Valid() && State() == NO_SCORES && skiplist == null
    {
      encoding, listpack, dict, skiplist, scores := Listpack, [], map[], null, map[];
    }

    method Len() returns (n: nat)
      requires Valid()
      ensures n == |scores|
    {
      match encoding
      case Listpack => n := |listpack|;
      case Skiplist => n := |dict|;
    }

    /** The index of the listpack entry of `member`, or the length of the listpack. */
    method Find(member: bytes) returns (i: nat)
      requires Valid() && encoding == Listpack
      ensures i <= |listpack| && (i < |listpack| <==> member in scores)
      ensures i < |listpack| ==> listpack[i].member == member && PairsOf(listpack)[i] in PairsOf(listpack)
    {
      i := 0;
      while i < |listpack| && listpack[i].member != member
        invariant i <= |listpack| && forall j :: 0 <= j < i ==> listpack[j].member != member
      {
        i := i + 1;
      }
      ghost var s := PairsOf(listpack);
      if i < |listpack| {
        assert s[i] in s;
      } else {
        AbsentMember(s, scores, member);
      }
    }

    method Score(member: bytes) returns (score: real, exists_: bool)
      requires Valid()
      ensures exists_ <==> member in scores
      ensures exists_ ==> score == scores[member]
      ensures !exists_ ==> score == 0.0
    {
      match encoding
      case Listpack =>
        var i := Find(member);
        if i < |listpack| {
          return ParseScore(listpack[i].text), true;
        }
        return 0.0, false;
      case Skiplist =>
        if member in dict {
          return dict[member], true;
        }
        return 0.0, false;
    }

    method ConvertToSkiplist()
      requires encoding == Listpack && Denotes(PairsOf(listpack), scores)
      modifies this
      ensures Valid() && encoding == Skiplist && scores == old(scores)
      ensures skiplist != null && fresh(skiplist) && fresh(Nodes())
    {
      var list, d := Build(listpack);
      CopiedAll(list.pairs, d, listpack);
      DenotesUnique(PairsOf(listpack), d, scores);
      skiplist, dict, encoding, listpack := list, d, Skiplist, [];
    }

    /** Add sets the score of the member; the listpack keeps only what `%f` shows of the score. */
    method Add(member: bytes, score: real) returns (added: bool)
      requires Valid()
      modifies this, skiplist, Nodes()
      ensures Valid()
      ensures skiplist == old(skiplist) || fresh(skiplist)
      ensures fresh(Nodes() - old(Nodes()))
      ensures added <==> member !in old(scores)
      ensures State() == Scored(old(State()), member, score)
      ensures scores == old(scores)[member := score] <==> (old(encoding) == Skiplist || Kept(score) == score)
      ensures -0.0000005 <= scores[member] - score <= 0.0000005 && scores == old(scores)[member := scores[member]]
      ensures encoding == Listpack <==> old(encoding) == Listpack && |scores| <= 128
    {
      ghost var before := scores;
      KeptIsClose(score);
      match encoding
      case Listpack =>
        added := AddToListpack(member, score);
        assert scores[member] == Kept(score) && before[member := score][member] == score;
      case Skiplist =>
        added := AddToSkiplist(member, score);
    }

    method AddToListpack(member: bytes, score: real) returns (added: bool)
      requires Valid() && encoding == Listpack
      modifies this
      ensures Valid()
      ensures skiplist == old(skiplist) || (skiplist != null && fresh(skiplist) && fresh(Nodes()))
      ensures added <==> member !in old(scores)
      ensures scores == old(scores)[member := Kept(score)]
      ensures encoding == if |scores| > LISTPACK_MAX_SIZE then Skiplist else Listpack
    {
      var i := Find(member);
      if i < |listpack| {
        SetEntry(i, member, FormatScore(score));
        return false;
      }
      Append(Entry(member, FormatScore(score)));
      if |listpack| > LISTPACK_MAX_SIZE {
        ConvertToSkiplist();
      }
      return true;
    }

    method SetEntry(i: nat, member: bytes, text: ScoreText)
      requires Valid() && encoding == Listpack && i < |listpack| && listpack[i].member == member
      modifies `listpack, `scores
      ensures Valid() && |listpack| == old(|listpack|) && scores == old(scores)[member := ParseScore(text)]
      ensures |scores| == old(|scores|)
    {
      DenotesReplace(PairsOf(listpack), scores, i, ParseScore(text));
      assert PairsOf(listpack[i := Entry(member, text)]) == PairsOf(listpack)[i := Pair(member, ParseScore(text))];
      listpack := listpack[i := Entry(member, text)];
      scores := scores[member := ParseScore(text)];
    }

    method Append(e: Entry)
      requires encoding == Listpack && Denotes(PairsOf(listpack), scores) && e.member !in scores
      modifies `listpack, `scores
      ensures Denotes(PairsOf(listpack), scores) && |listpack| == old(|listpack|) + 1
      ensures scores == old(scores)[e.member := ParseScore(e.text)]
    {
      assert Inserted(PairsOf(listpack), PairsOf(listpack + [e]), |listpack|, PairOf(e));
      DenotesInsert(PairsOf(listpack), PairsOf(listpack + [e]), scores, |listpack|, PairOf(e));
      listpack := listpack + [e];
      scores := scores[e.member := ParseScore(e.text)];
    }

    method AddToSkiplist(member: bytes, score: real) returns (added: bool)
      requires Valid() && encoding == Skiplist
      modifies this, skiplist, Nodes()
      ensures Valid() && encoding == Skiplist
      ensures skiplist == old(skiplist) && fresh(Nodes() - old(Nodes()))
      ensures added <==> member !in old(scores)
      ensures scores == old(scores)[member := score]
    {
      if member in dict {
        if dict[member] != score {
          ReplacePair(member, score);
        }
        return false;
      }
      InsertPair(member, score);
      return true;
    }

    /** Delete a member's pair from the skip list and its entry from the dict. */
    method DeletePair(member: bytes)
      requires Valid() && encoding == Skiplist && member in dict
      modifies this, skiplist, Nodes()
      ensures Valid() && encoding == Skiplist && skiplist == old(skiplist)
      ensures Nodes() <= old(Nodes()) && scores == old(scores) - {member}
    {
      ghost var before := skiplist.pairs;
      var x := Pair(member, dict[member]);
      assert x in before;
      var _ := skiplist.Delete(x);
      MirrorsRemove(before, skiplist.pairs, dict, x);
      dict := dict - {member};
      scores := dict;
    }

    method InsertPair(member: bytes, score: real)
      requires Valid() && encoding == Skiplist && member !in dict
      modifies this, skiplist, Nodes()
      ensures Valid() && encoding == Skiplist && skiplist == old(skiplist)
      ensures fresh(Nodes() - old(Nodes())) && scores == old(scores)[member := score]
    {
      ghost var before := skiplist.pairs;
      skiplist.Insert(Pair(member, score));
      MirrorsInsert(before, skiplist.pairs, dict, Pair(member, score));
      dict := dict[member := score];
      scores := dict;
    }

    method ReplacePair(member: bytes, score: real)
      requires Valid() && encoding == Skiplist && member in dict
      modifies this, skiplist, Nodes()
      ensures Valid() && encoding == Skiplist && skiplist == old(skiplist)
      ensures fresh(Nodes() - old(Nodes())) && scores == old(scores)[member := score]
    {
      Exchange(skiplist, Pair(member, dict[member]), Pair(member, score), dict);
      dict := dict[member := score];
      scores := dict;
    }

    method Remove(member: bytes) returns (removed: bool)
      requires Valid()
      modifies this, skiplist, Nodes()
      ensures Valid() && encoding == old(encoding)
      ensures skiplist == old(skiplist) && Nodes() <= old(Nodes())
      ensures removed <==> member in old(scores)
      ensures scores == old(scores) - {member}
    {
      match encoding
      case Listpack =>
        var i := Find(member);
        if i < |listpack| {
          CutEntry(i);
          return true;
        }
        return false;
      case Skiplist =>
        if member in dict {
          DeletePair(member);
          return true;
        }
        return false;
    }

    method CutEntry(i: nat)
      requires Valid() && encoding == Listpack && i < |listpack|
      modifies `listpack, `scores
      ensures Valid() && scores == old(scores) - {old(listpack)[i].member}
    {
      ghost var l := RemoveAt(listpack, i);
      DenotesRemove(PairsOf(listpack), PairsOf(l), scores, i);
      scores := scores - {listpack[i].member};
      listpack := listpack[..i] + listpack[i + 1..];
    }

    method Count(min: real, max: real) returns (count: nat)
      requires Valid()
      ensures count == |MembersInRange(scores, min, max)|
    {
      match encoding
      case Listpack =>
        CountAgrees(PairsOf(listpack), scores, min, max);
        count := CountEntries(listpack, min, max);
      case Skiplist =>
        CountAgrees(skiplist.pairs, scores, min, max);
        count := skiplist.CountInRange(min, max);
    }

    /** The ranks from `start` to `stop` of an order by score; in skiplist encoding ties are ordered by member. */
    method RangeByRank(start: int, stop: int) returns (result: seq<bytes>)
      requires Valid()
      ensures exists order :: Ranks(order, scores) && (encoding == Skiplist ==> Sorted(order)) &&
                              result == Members(RankSlice(order, start, stop))
    {
      match encoding
      case Listpack =>
        var pairs := SortEntries(listpack, scores);
        var size := |pairs|;
        var from := if start < 0 then size + start else start;
        var to := if stop < 0 then size + stop else stop;
        if from < 0 { from := 0; }
        if to >= size { to := size - 1; }
        if from > to || from >= size {
          result := [];
        } else {
          RankSliceIs(pairs, start, stop, from, to);
          result := Members(pairs[from..to + 1]);
        }
        assert Ranks(pairs, scores) && result == Members(RankSlice(pairs, start, stop));
      case Skiplist =>
        SortedRanks(skiplist.pairs, scores);
        result := skiplist.RangeByRank(start, stop);
    }
  }

  ghost predicate ByScore(s: seq<Pair>) {
    forall i, j :: 0 <= i < j < |s| ==> s[i].score <= s[j].score
  }

  /** Insert behind every smaller score, and behind any number of equal ones: the sort is not stable. */
  method InsertByScore(s: seq<Pair>, x: Pair) returns (r: seq<Pair>, ghost k: nat)
    requires ByScore(s)
    ensures ByScore(r) && Inserted(s, r, k, x)
  {
    var i := 0;
    while i < |s| && s[i].score <= x.score
      invariant 0 <= i <= |s| && forall j :: 0 <= j < i ==> s[j].score <= x.score
    {
      if s[i].score == x.score {
        if * { break; }
      }
      i := i + 1;
    }
    k := i;
    r := s[..i] + [x] + s[i..];
  }

  /** `sort.Slice` on the listpack's scores: some order of all entries by score. */
  method SortEntries(l: seq<Entry>, ghost m: map<bytes, real>) returns (order: seq<Pair>)
    requires Denotes(PairsOf(l), m)
    ensures Ranks(order, m)
  {
    ghost var s, d := PairsOf(l), map[];
    order := [];
    for i := 0 to |l|
      invariant ByScore(order) && Denotes(order, d) && Denotes(s[..i], d)
    {
      DenotesPrefix(s, i, d);
      ghost var k;
      ghost var before := order;
      order, k := InsertByScore(order, PairOf(l[i]));
      DenotesInsert(before, order, d, k, s[i]);
      d := d[s[i].member := s[i].score];
    }
    assert s[..|l|] == s;
    DenotesUnique(s, m, d);
  }

  method CountEntries(l: seq<Entry>, min: real, max: real) returns (count: nat)
    ensures count == |InRange(PairsOf(l), min, max)|
  {
    count := 0;
    assert PairsOf(l)[0..] == PairsOf(l);
    for i := 0 to |l|
      invariant count + |InRange(PairsOf(l)[i..], min, max)| == |InRange(PairsOf(l), min, max)|
    {
      assert PairsOf(l)[i..][1..] == PairsOf(l)[i + 1..];
      var score := ParseScore(l[i].text);
      if score >= min && score <= max {
        count := count + 1;
      }
    }
  }

  /** Skip list and dict hold the first `i` entries. */
  ghost predicate Copied(pairs: seq<Pair>, d: map<bytes, real>, l: seq<Entry>, i: nat) {
    i <= |l| && Mirrors(pairs, d) && Denotes(PairsOf(l)[..i], d)
  }

  /** A fresh skip list and dict with the entries of a listpack. */
  method Build(l: seq<Entry>) returns (list: SkipList, d: map<bytes, real>)
    requires Unique(PairsOf(l))
    ensures fresh(list) && fresh(list.all) && list.Valid()
    ensures Copied(list.pairs, d, l, |l|)
  {
    list := new SkipList();
    d := map[];
    CopiedNothing(l);
    for i := 0 to |l|
      invariant fresh(list) && fresh(list.all) && list.Valid() && Copied(list.pairs, d, l, i)
    {
      d := AddPair(list, d, l, i);
    }
  }

  lemma {:induction false} CopiedNothing(l: seq<Entry>)
    ensures Copied([], map[], l, 0)
  {
  }

  lemma {:induction false} CopiedAll(pairs: seq<Pair>, d: map<bytes, real>, l: seq<Entry>)
    requires Copied(pairs, d, l, |l|)
    ensures Mirrors(pairs, d) && Denotes(PairsOf(l), d)
  {
    assert PairsOf(l)[..|l|] == PairsOf(l);
  }

  method AddPair(list: SkipList, d: map<bytes, real>, l: seq<Entry>, i: nat) returns (d': map<bytes, real>)
    requires list.Valid() && Unique(PairsOf(l)) && i < |l| && Copied(list.pairs, d, l, i)
    modifies list, list.all
    ensures list.Valid() && Copied(list.pairs, d', l, i + 1)
    ensures forall p :: 0 <= p < |list.all| ==> list.all[p] in old(list.all) || fresh(list.all[p])
  {
    ghost var before := list.pairs;
    var x := PairOf(l[i]);
    DenotesPrefix(PairsOf(l), i, d);
    list.Insert(x);
    MirrorsInsert(before, list.pairs, d, x);
    d' := d[x.member := x.score];
  }

  /** The old pair of a member goes, and its new one comes. */
  method Exchange(list: SkipList, x: Pair, y: Pair, ghost d: map<bytes, real>)
    requires list.Valid() && Mirrors(list.pairs, d) && x in list.pairs && x.member == y.member
    modifies list, list.all
    ensures list.Valid() && Mirrors(list.pairs, d[y.member := y.score])
    ensures forall n :: n in list.all ==> n in old(list.all) || fresh(n)
  {
    ghost var before := list.pairs;
    var _ := list.Delete(x);
    ghost var between := list.pairs;
    assert forall p :: 0 <= p < |list.all| ==> list.all[p] in old(list.all);
    list.Insert(y);
    MirrorsReplace(before, between, list.pairs, d, x, y);
  }

  /** "a" is given 0.1234567 and "b" 2.0: the listpack rounds the first, and ranges include both of their ends. */
  method RoundedAndCounted() returns (score: real, both: nat, below: nat)
    ensures score == 0.123457 && both == 2 && below == 1
  {
    var a: bytes, b: bytes := [97], [98];
    RoundedScores();
    FormatScoreIsNearest(2.0, 2000000);
    var z := new ZSet();
    var _ := z.Add(a, 0.1234567);
    var _ := z.Add(b, 2.0);
    assert z.scores == map[a := 0.123457, b := 2.0];
    var found;
    score, found := z.Score(a);
    both := z.Count(0.123457, 2.0);
    below := z.Count(0.0, 0.123457);
    assert MembersInRange(z.scores, 0.123457, 2.0) == {a, b} && MembersInRange(z.scores, 0.0, 0.123457) == {a};
  }
}
