/**
 The pointer skip list of datastruct/skiplist/skiplist.go: nodes carry a slice of forward pointers, one per
 level, and every operation descends from the top level to level 0.

 The abstract value is one sorted sequence of (member, score) pairs. `heights` records how tall each node is;
 the pure functions on heights (`Next`, `Pred`) say where every pointer has to lead, and the lemmas about them
 carry the relinking proofs.
 */
module SkipList {
  import opened Bytes

  const MAX_LEVEL := 16

  datatype Pair = Pair(member: bytes, score: real)

  /** The order of the list: by score, then by member. */
  predicate Less(a: Pair, b: Pair) {
    a.score < b.score || (a.score == b.score && BytesLess(a.member, b.member))
  }

  lemma {:induction false} LessIsStrictTotalOrder(a: Pair, b: Pair, c: Pair)
    ensures !Less(a, a)
    ensures Less(a, b) && Less(b, c) ==> Less(a, c)
    ensures Less(a, b) || a == b || Less(b, a)
    ensures !(Less(a, b) && Less(b, a))
  {
    BytesLessIrreflexive(a.member);
    if BytesLess(a.member, b.member) && BytesLess(b.member, c.member) {
      BytesLessTransitive(a.member, b.member, c.member);
    }
    BytesLessTotal(a.member, b.member);
    if BytesLess(a.member, b.member) && BytesLess(b.member, a.member) {
      BytesLessTransitive(a.member, b.member, a.member);
    }
  }

  /** What a descent looks for: the first pair not before a given pair, or not below a given score. */
  datatype Bound = AtPair(pair: Pair) | AtScore(min: real)

  predicate Before(a: Pair, b: Bound) {
    match b
    case AtPair(pair) => Less(a, pair)
    case AtScore(min) => a.score < min
  }

  lemma {:induction false} BeforeIsDownward(a: Pair, c: Pair, b: Bound)
    requires !Less(c, a) && Before(c, b)
    ensures Before(a, b)
  {
    LessIsStrictTotalOrder(a, c, c);
    if b.AtPair? { LessIsStrictTotalOrder(a, c, b.pair); }
  }

  predicate Ordered(s: seq<Pair>, i: nat, j: nat)
    requires i < |s| && j < |s|
  {
    !Less(s[j], s[i])
  }

  ghost predicate Sorted(s: seq<Pair>) {
    forall i, j {:trigger Ordered(s, i, j)} :: 0 <= i < j < |s| ==> Ordered(s, i, j)
  }

  ghost predicate StrictlySorted(s: seq<Pair>) {
    Sorted(s) && forall i, j :: 0 <= i < j < |s| ==> s[i] != s[j]
  }

  ghost predicate IsCut(s: seq<Pair>, b: Bound, k: nat) {
    k <= |s| && (forall i {:trigger Before(s[i], b)} :: 0 <= i < k ==> Before(s[i], b)) && (k < |s| ==> !Before(s[k], b))
  }

  lemma {:induction false} CutExists(s: seq<Pair>, b: Bound)
    ensures exists k :: IsCut(s, b, k)
  {
    var k := 0;
    while k < |s| && Before(s[k], b)
      invariant 0 <= k <= |s| && forall i :: 0 <= i < k ==> Before(s[i], b)
    {
      k := k + 1;
    }
    assert IsCut(s, b, k);
  }

  /** How many pairs at the front of `s` lie before the bound. */
  ghost function Cut(s: seq<Pair>, b: Bound): (k: nat)
    ensures k <= |s|
  {
    CutExists(s, b);
    var k :| IsCut(s, b, k);
    k
  }

  /** In a sorted sequence the cut separates exactly: what is before the bound stands in front of it. */
  lemma {:induction false} CutSplits(s: seq<Pair>, b: Bound)
    requires Sorted(s)
    ensures forall i {:trigger Before(s[i], b)} :: 0 <= i < |s| ==> (Before(s[i], b) <==> i < Cut(s, b))
  {
    var k := Cut(s, b);
    assert IsCut(s, b, k);
    forall i | k <= i < |s| ensures !Before(s[i], b) {
      if k < i && Before(s[i], b) {
        assert Ordered(s, k, i);
        BeforeIsDownward(s[k], s[i], b);
      }
    }
  }

  /** Inserting at the cut keeps the order, and keeps it strict exactly when the pair was absent. */
  lemma {:induction false} InsertKeepsOrder(s: seq<Pair>, s': seq<Pair>, pair: Pair)
    requires Sorted(s) && Inserted(s, s', Cut(s, AtPair(pair)), pair)
    ensures Sorted(s')
    ensures StrictlySorted(s) ==> (StrictlySorted(s') <==> pair !in s)
  {
    var k := Cut(s, AtPair(pair));
    CutSplits(s, AtPair(pair));
    forall i, j | 0 <= i < j < |s'| ensures Ordered(s', i, j) {
      LessIsStrictTotalOrder(s'[i], s'[j], s'[i]);
      if i == k {
        assert !Before(s[j - 1], AtPair(pair));
      } else if j == k {
        assert Before(s[i], AtPair(pair));
      } else {
        assert Ordered(s, if i < k then i else i - 1, if j < k then j else j - 1);
      }
    }
    if StrictlySorted(s) && pair in s {
      var j :| 0 <= j < |s| && s[j] == pair;
      LessIsStrictTotalOrder(pair, pair, pair);
      assert !Before(s[j], AtPair(pair));
      assert s'[k] == s'[j + 1] && k < j + 1;
    }
  }

  lemma {:induction false} RemoveKeepsOrder(s: seq<Pair>, s': seq<Pair>, k: nat)
    requires k < |s| && Inserted(s', s, k, s[k]) && Sorted(s)
    ensures Sorted(s') && (StrictlySorted(s) ==> StrictlySorted(s'))
  {
    forall i, j | 0 <= i < j < |s'| ensures Ordered(s', i, j) {
      assert Ordered(s, if i < k then i else i + 1, if j < k then j else j + 1);
    }
  }

  /** A pair occurs in a sorted sequence exactly when it stands at its cut. */
  lemma {:induction false} PairAtCut(s: seq<Pair>, pair: Pair)
    requires Sorted(s)
    ensures pair in s <==> Cut(s, AtPair(pair)) < |s| && s[Cut(s, AtPair(pair))] == pair
  {
    var k := Cut(s, AtPair(pair));
    CutSplits(s, AtPair(pair));
    if pair in s {
      var j :| 0 <= j < |s| && s[j] == pair;
      LessIsStrictTotalOrder(pair, s[j], pair);
      assert !Before(s[j], AtPair(pair));
      assert !Before(s[k], AtPair(pair));
      LessIsStrictTotalOrder(s[k], pair, pair);
      assert k < j ==> Ordered(s, k, j);
    }
  }

  // ----- the queries on plain sorted sequences -----

  /** The pairs whose score lies in the closed range, in list order. */
  ghost function InRange(s: seq<Pair>, min: real, max: real): seq<Pair> {
    if s == [] then [] else (if min <= s[0].score <= max then [s[0]] else []) + InRange(s[1..], min, max)
  }

  function Members(s: seq<Pair>): (r: seq<bytes>)
    ensures |r| == |s| && forall i :: 0 <= i < |s| ==> r[i] == s[i].member
  {
    seq(|s|, i requires 0 <= i < |s| => s[i].member)
  }

  /** Skip `offset` pairs (a negative offset skips none), then keep `count` (a count that is not positive keeps all). */
  ghost function Limit(s: seq<Pair>, offset: int, count: int): seq<Pair> {
    var rest := if offset <= 0 then s else if offset <= |s| then s[offset..] else [];
    if 0 < count <= |rest| then rest[..count] else rest
  }

  /** The pairs from rank `start` to rank `stop`, both included; negative ranks count from the end. */
  ghost function RankSlice(s: seq<Pair>, start: int, stop: int): seq<Pair> {
    var lo := if start >= 0 then start else if |s| + start >= 0 then |s| + start else 0;
    var hi := if stop >= 0 then stop + 1 else |s| + stop + 1;
    if lo >= |s| || hi <= lo then [] else if hi <= |s| then s[lo..hi] else s[lo..]
  }

  lemma {:induction false} InRangeDropsFront(s: seq<Pair>, k: nat, min: real, max: real)
    requires k <= |s| && forall i :: 0 <= i < k ==> s[i].score < min
    ensures InRange(s, min, max) == InRange(s[k..], min, max)
  {
    if k == 0 {
      assert s[k..] == s;
    } else {
      InRangeDropsFront(s[1..], k - 1, min, max);
      assert s[1..][k - 1..] == s[k..];
    }
  }

  lemma {:induction false} SortedSuffix(s: seq<Pair>, k: nat)
    requires Sorted(s) && k <= |s|
    ensures Sorted(s[k..])
  {
    forall i, j | 0 <= i < j < |s[k..]| ensures Ordered(s[k..], i, j) { assert Ordered(s, k + i, k + j); }
  }

  lemma {:induction false} InRangeIsPrefix(s: seq<Pair>, min: real, max: real)
    requires Sorted(s) && (|s| > 0 ==> s[0].score >= min)
    ensures var r := InRange(s, min, max);
            r <= s && (forall i :: 0 <= i < |r| ==> s[i].score <= max) && (|r| < |s| ==> s[|r|].score > max)
  {
    if |s| > 0 {
      SortedSuffix(s, 1);
      if |s| > 1 { assert Ordered(s, 0, 1); }
      InRangeIsPrefix(s[1..], min, max);
      var r := InRange(s[1..], min, max);
      if s[0].score > max {
        assert |r| == 0;
      } else {
        assert InRange(s, min, max) == [s[0]] + r;
      }
    }
  }

  /** On a sorted sequence the range is one slice, beginning at the cut for `min`. */
  lemma {:induction false} InRangeIsSlice(s: seq<Pair>, min: real, max: real)
    requires Sorted(s)
    ensures var k, r := Cut(s, AtScore(min)), InRange(s, min, max);
            k + |r| <= |s| && r == s[k..k + |r|]
            && (forall i :: k <= i < k + |r| ==> s[i].score <= max)
            && (k + |r| < |s| ==> s[k + |r|].score > max)
  {
    var k := Cut(s, AtScore(min));
    CutSplits(s, AtScore(min));
    forall i | 0 <= i < k ensures s[i].score < min { assert Before(s[i], AtScore(min)); }
    InRangeDropsFront(s, k, min, max);
    SortedSuffix(s, k);
    assert k < |s| ==> !Before(s[k], AtScore(min)) && s[k..][0] == s[k];
    InRangeIsPrefix(s[k..], min, max);
    SliceFacts(s, k, InRange(s, min, max), max);
  }

  lemma {:induction false} SliceFacts(s: seq<Pair>, k: nat, r: seq<Pair>, max: real)
    requires k <= |s| && r <= s[k..]
    requires forall i :: 0 <= i < |r| ==> s[k..][i].score <= max
    requires |r| < |s[k..]| ==> s[k..][|r|].score > max
    ensures k + |r| <= |s| && r == s[k..k + |r|]
    ensures forall i :: k <= i < k + |r| ==> s[i].score <= max
    ensures k + |r| < |s| ==> s[k + |r|].score > max
  {
    assert forall i :: k <= i < k + |r| ==> s[i] == s[k..][i - k];
  }

  lemma {:induction false} LimitIs(r: seq<Pair>, offset: int, count: int, skipped: nat, result: seq<bytes>)
    requires skipped + |result| <= |r|
    requires forall i :: 0 <= i < |result| ==> result[i] == r[skipped + i].member
    requires if offset <= 0 then skipped == 0 else skipped <= offset && (result != [] ==> skipped == offset)
    requires count > 0 ==> |result| <= count
    requires skipped + |result| == |r| || (count > 0 && |result| == count)
    ensures result == Members(Limit(r, offset, count))
  {
  }

  lemma {:induction false} RankSliceIs(s: seq<Pair>, start: int, stop: int, from: nat, to: nat)
    requires from == (if start >= 0 then start else if |s| + start >= 0 then |s| + start else 0)
    requires from <= to < |s| && to == (if stop < 0 then |s| + stop else if stop < |s| then stop else |s| - 1)
    ensures RankSlice(s, start, stop) == s[from..to + 1]
  {
  }

  // ----- pointer targets as functions of the node heights -----

  ghost predicate IsNext(h: seq<nat>, p: nat, i: nat, q: nat) {
    p < q <= |h| && (q < |h| ==> h[q] > i) && forall r :: p < r < q ==> h[r] <= i
  }

  lemma {:induction false} NextExists(h: seq<nat>, p: nat, i: nat)
    requires p < |h|
    ensures exists q :: IsNext(h, p, i, q)
  {
    var q := p + 1;
    while q < |h| && h[q] <= i
      invariant p < q <= |h| && forall r :: p < r < q ==> h[r] <= i
    {
      q := q + 1;
    }
    assert IsNext(h, p, i, q);
  }

  /** The first position after `p` whose node reaches level `i`, or `|h|`. */
  ghost function Next(h: seq<nat>, p: nat, i: nat): (q: nat)
    requires p < |h|
    ensures p < q <= |h| && (q < |h| ==> h[q] > i)
  {
    NextExists(h, p, i);
    var q :| IsNext(h, p, i, q);
    q
  }

  lemma {:induction false} NextIs(h: seq<nat>, p: nat, i: nat, q: nat)
    requires p < |h|
    ensures Next(h, p, i) == q <==> IsNext(h, p, i, q)
  {
  }

  ghost predicate IsPred(h: seq<nat>, k: nat, i: nat, p: nat) {
    p <= k < |h| && h[p] > i && forall r :: p < r <= k ==> h[r] <= i
  }

  /** The last position at or before `k` whose node reaches level `i`. */
  ghost function Pred(h: seq<nat>, k: nat, i: nat): (p: nat)
    requires k < |h| && h[0] > i
    ensures p <= k && h[p] > i
  {
    if h[k] > i then k else Pred(h, k - 1, i)
  }

  lemma {:induction false} PredIs(h: seq<nat>, k: nat, i: nat, p: nat)
    requires k < |h| && h[0] > i
    ensures Pred(h, k, i) == p <==> IsPred(h, k, i, p)
  {
    if h[k] <= i { PredIs(h, k - 1, i, p); }
  }

  /** `r` is `s` with `x` put in at position `k`. */
  ghost predicate Inserted<T>(s: seq<T>, r: seq<T>, k: nat, x: T) {
    && k <= |s| && |r| == |s| + 1 && r[k] == x
    && (forall i :: 0 <= i < k ==> s[i] == r[i])
    && (forall i {:trigger s[i]} :: k <= i < |s| ==> s[i] == r[i + 1])
    && (forall i {:trigger r[i]} :: k < i < |r| ==> r[i] == s[i - 1])
  }

  lemma {:induction false} InsertAt<T>(s: seq<T>, k: nat, x: T) returns (r: seq<T>)
    requires k <= |s|
    ensures Inserted(s, r, k, x)
  {
    r := s[..k] + [x] + s[k..];
  }

  lemma {:induction false} RemoveAt<T>(s: seq<T>, k: nat) returns (r: seq<T>)
    requires k < |s|
    ensures Inserted(r, s, k, s[k]) && r == s[..k] + s[k + 1..]
  {
    r := s[..k] + s[k + 1..];
  }

  /** Where `Next` leads once a node of height `x` stands at position `k + 1`: seen from behind the new node. */
  lemma {:induction false} NextBehindInsert(h: seq<nat>, h': seq<nat>, k: nat, x: nat, p: nat, i: nat)
    requires Inserted(h, h', k + 1, x) && k < p < |h|
    ensures Next(h', p + 1, i) == Next(h, p, i) + 1
  {
    var n := Next(h, p, i);
    NextIs(h, p, i, n);
    forall r | p + 1 < r < n + 1 ensures h'[r] <= i { assert h'[r] == h[r - 1]; }
    NextIs(h', p + 1, i, n + 1);
  }

  /** ... and seen from in front of it, when the pointer does not reach the new node. */
  lemma {:induction false} NextBeforeInsert(h: seq<nat>, h': seq<nat>, k: nat, x: nat, p: nat, i: nat)
    requires Inserted(h, h', k + 1, x) && p <= k && Next(h, p, i) <= k
    ensures Next(h', p, i) == Next(h, p, i)
  {
    NextIs(h, p, i, Next(h, p, i));
    NextIs(h', p, i, Next(h, p, i));
  }

  /** ... and when it jumps over the insertion point: a tall enough new node catches it. */
  lemma {:induction false} NextOverInsert(h: seq<nat>, h': seq<nat>, k: nat, x: nat, p: nat, i: nat)
    requires Inserted(h, h', k + 1, x) && p <= k && Next(h, p, i) > k
    ensures Next(h', p, i) == if x > i then k + 1 else Next(h, p, i) + 1
  {
    NextIs(h, p, i, Next(h, p, i));
    NextIs(h', p, i, if x > i then k + 1 else Next(h, p, i) + 1);
  }

  lemma {:induction false} NextFromInserted(h: seq<nat>, h': seq<nat>, k: nat, x: nat, i: nat)
    requires Inserted(h, h', k + 1, x)
    ensures Next(h', k + 1, i) == Next(h, k, i) + 1
  {
    var n := Next(h, k, i);
    NextIs(h, k, i, n);
    forall r | k + 1 < r < n + 1 ensures h'[r] <= i { assert h'[r] == h[r - 1]; }
    NextIs(h', k + 1, i, n + 1);
  }

  /** `Pred(h, k, i)` is the one position up to `k` whose level-`i` pointer jumps past `k`. */
  lemma {:induction false} PredIsTheJump(h: seq<nat>, k: nat, i: nat, p: nat)
    requires k < |h| && h[0] > i && p <= k && h[p] > i
    ensures p == Pred(h, k, i) <==> Next(h, p, i) > k
    ensures p == Pred(h, k, i) ==> Next(h, p, i) == Next(h, k, i)
  {
    NextIs(h, p, i, Next(h, p, i));
    PredIs(h, k, i, p);
    if Next(h, p, i) > k { NextIs(h, k, i, Next(h, p, i)); }
  }

  lemma {:induction false} NextFinds(h: seq<nat>, p: nat, i: nat, q: nat)
    requires p < q < |h| && h[q] > i
    ensures Next(h, p, i) <= q
  {
    NextIs(h, p, i, Next(h, p, i));
  }

  /** The positions met by following the level-`i` pointers from position `p`. */
  ghost function Chain(h: seq<nat>, p: nat, i: nat): seq<nat>
    requires p < |h|
    decreases |h| - p
  {
    var q := Next(h, p, i);
    if q == |h| then [] else [q] + Chain(h, q, i)
  }

  /** Level `i` is exactly the subsequence of the nodes that reach it, in list order. */
  lemma {:induction false} ChainIsTheTallerNodes(h: seq<nat>, p: nat, i: nat)
    requires p < |h|
    ensures forall q :: q in Chain(h, p, i) <==> p < q < |h| && h[q] > i
    ensures forall m, n :: 0 <= m < n < |Chain(h, p, i)| ==> Chain(h, p, i)[m] < Chain(h, p, i)[n]
    decreases |h| - p
  {
    var q := Next(h, p, i);
    NextIs(h, p, i, q);
    if q < |h| {
      ChainIsTheTallerNodes(h, q, i);
      assert forall m :: 0 <= m < |Chain(h, q, i)| ==> Chain(h, q, i)[m] in Chain(h, q, i);
    }
  }

  // ----- which nodes a descent passes through -----

  /** No node between `p` and `k` is taller than the node at `p`. */
  ghost predicate Visible(h: seq<nat>, p: nat, k: nat)
    requires p <= k < |h|
  {
    forall q :: p < q <= k ==> h[q] <= h[p]
  }

  /** How many of the positions 1..p can be seen from `k`. */
  ghost function Seen(h: seq<nat>, p: nat, k: nat): (n: nat)
    requires p <= k < |h|
    ensures n <= p
  {
    if p == 0 then 0 else Seen(h, p - 1, k) + (if Visible(h, p, k) then 1 else 0)
  }

  lemma {:induction false} SeenBehindTall(h: seq<nat>, p: nat, r: nat, q: nat, k: nat)
    requires p <= r < q <= k < |h| && forall j :: p < j <= r ==> h[j] < h[q]
    ensures Seen(h, r, k) == Seen(h, p, k)
  {
    if p < r { SeenBehindTall(h, p, r - 1, q, k); }
  }

  /** One hop on level `i` passes exactly one visible node. */
  lemma {:induction false} SeenHop(h: seq<nat>, p: nat, i: nat, k: nat)
    requires p < |h| && Next(h, p, i) <= k < |h|
    requires forall r :: p < r <= k ==> h[r] <= i + 1
    ensures Seen(h, Next(h, p, i), k) == Seen(h, p, k) + 1
  {
    var q := Next(h, p, i);
    NextIs(h, p, i, q);
    SeenBehindTall(h, p, q - 1, q, k);
  }

  ghost predicate NonIncreasing(h: seq<nat>, k: nat)
    requires k < |h|
  {
    forall p, q :: 1 <= p < q <= k ==> h[q] <= h[p]
  }

  /** A descent sees every node up to `k` exactly when their heights never increase. */
  lemma {:induction false} SeesAll(h: seq<nat>, p: nat, k: nat)
    requires p <= k < |h|
    ensures Seen(h, p, k) == p <==> forall q :: 1 <= q <= p ==> Visible(h, q, k)
  {
    if p > 0 { SeesAll(h, p - 1, k); }
  }

  lemma {:induction false} SeesAllIffNonIncreasing(h: seq<nat>, k: nat)
    requires k < |h|
    ensures Seen(h, k, k) == k <==> NonIncreasing(h, k)
  {
    SeesAll(h, k, k);
    if NonIncreasing(h, k) {
      forall q | 1 <= q <= k ensures Visible(h, q, k) { }
    } else {
      var p, q :| 1 <= p < q <= k && h[q] > h[p];
      assert !Visible(h, p, k);
    }
  }

  // ----- the list itself -----

  class Node {
    const pair: Pair
    var forward: seq<Node?>

    constructor (pair: Pair, height: nat)
      ensures this.pair == pair && forward == seq(height, _ => null)
    {
      this.pair := pair;
      forward := seq(height, _ => null);
    }
  }

  ghost function At(a: seq<Node>, q: nat): Node? {
    if q < |a| then a[q] else null
  }

  predicate Differ(a: seq<Node>, p: nat, q: nat)
    requires p < |a| && q < |a|
  {
    a[p] != a[q]
  }

  ghost predicate Distinct(a: seq<Node>) {
    forall p, q {:trigger Differ(a, p, q)} :: 0 <= p < q < |a| ==> Differ(a, p, q)
  }

  lemma {:induction false} DistinctFrom(a: seq<Node>, p: nat)
    requires Distinct(a) && p < |a|
    ensures forall q :: 0 <= q < |a| && q != p ==> a[q] != a[p]
  {
    forall q | 0 <= q < |a| && q != p ensures a[q] != a[p] {
      if p < q { assert Differ(a, p, q); } else { assert Differ(a, q, p); }
    }
  }

  /** `f` are the forward pointers of the nodes `a`. */
  ghost predicate Shows(a: seq<Node>, f: seq<seq<Node?>>)
    reads a
  {
    |a| == |f| && forall p :: 0 <= p < |a| ==> a[p].forward == f[p]
  }

  ghost predicate Tall(f: seq<seq<Node?>>, h: seq<nat>) {
    |f| == |h| && forall p :: 0 <= p < |f| ==> |f[p]| == h[p]
  }

  /** Every level-`i` pointer leads to the next node that reaches level `i`. */
  ghost predicate Linked(a: seq<Node>, f: seq<seq<Node?>>, h: seq<nat>)
    requires Tall(f, h)
  {
    forall p, i {:trigger f[p][i]} :: 0 <= p < |f| && 0 <= i < h[p] ==> f[p][i] == At(a, Next(h, p, i))
  }

  /** The pointers once, on the levels below `i`, those that jump over position `k` lead to `n`. */
  ghost predicate Redirected(a: seq<Node>, f: seq<seq<Node?>>, h: seq<nat>, k: nat, i: nat, n: Node)
    requires Tall(f, h)
  {
    forall p, j {:trigger f[p][j]} :: 0 <= p < |f| && 0 <= j < h[p] ==>
      f[p][j] == if j < i && p <= k && Next(h, p, j) > k then n else At(a, Next(h, p, j))
  }

  lemma {:induction false} RedirectOne(a: seq<Node>, f: seq<seq<Node?>>, h: seq<nat>, k: nat, i: nat, n: Node, p: nat)
    requires Tall(f, h) && k < |h| && h[0] > i && p == Pred(h, k, i) && Redirected(a, f, h, k, i, n)
    ensures f[p][i] == At(a, Next(h, k, i))
    ensures Tall(f[p := f[p][i := n]], h) && Redirected(a, f[p := f[p][i := n]], h, k, i + 1, n)
  {
    PredIsTheJump(h, k, i, p);
    var f' := f[p := f[p][i := n]];
    forall q, j {:trigger f'[q][j]} | 0 <= q < |f'| && 0 <= j < h[q]
      ensures f'[q][j] == if j < i + 1 && q <= k && Next(h, q, j) > k then n else At(a, Next(h, q, j))
    {
      if j == i && q <= k { PredIsTheJump(h, k, i, q); }
    }
  }

  lemma {:induction false} InsertLink(a: seq<Node>, a': seq<Node>, f: seq<seq<Node?>>, h: seq<nat>, h': seq<nat>,
                                      k: nat, n: Node, x: nat, p: nat, i: nat)
    requires Tall(f, h) && |a| == |f| && Redirected(a, f, h, k, x, n)
    requires Inserted(a, a', k + 1, n) && Inserted(h, h', k + 1, x) && p < |f| && i < h[p]
    ensures f[p][i] == At(a', Next(h', if p <= k then p else p + 1, i))
  {
    if p > k {
      NextBehindInsert(h, h', k, x, p, i);
    } else if Next(h, p, i) <= k {
      NextBeforeInsert(h, h', k, x, p, i);
    } else {
      NextOverInsert(h, h', k, x, p, i);
    }
  }

  lemma {:induction false} InsertLinks(a: seq<Node>, a': seq<Node>, f: seq<seq<Node?>>, f': seq<seq<Node?>>,
                                       h: seq<nat>, h': seq<nat>, k: nat, n: Node, g: seq<Node?>)
    requires Tall(f, h) && |a| == |f| && Redirected(a, f, h, k, |g|, n)
    requires Inserted(a, a', k + 1, n) && Inserted(f, f', k + 1, g) && Inserted(h, h', k + 1, |g|)
    requires forall j :: 0 <= j < |g| ==> g[j] == At(a, Next(h, k, j))
    ensures Tall(f', h') && Linked(a', f', h')
  {
    assert Tall(f', h');
    forall p, i {:trigger f'[p][i]} | 0 <= p < |f'| && 0 <= i < h'[p]
      ensures f'[p][i] == At(a', Next(h', p, i))
    {
      if p == k + 1 {
        NextFromInserted(h, h', k, |g|, i);
      } else {
        InsertLink(a, a', f, h, h', k, n, |g|, if p <= k then p else p - 1, i);
      }
    }
  }

  /** The pointers once, on the levels below `i`, those that lead to position `k + 1` have been led past it. */
  ghost predicate Bypassed(a: seq<Node>, f: seq<seq<Node?>>, h: seq<nat>, k: nat, i: nat)
    requires Tall(f, h) && k + 1 < |f|
  {
    forall p, j {:trigger f[p][j]} :: 0 <= p < |f| && 0 <= j < h[p] ==>
      f[p][j] == At(a, if j < i && Next(h, p, j) == k + 1 then Next(h, k + 1, j) else Next(h, p, j))
  }

  lemma {:induction false} BypassOne(a: seq<Node>, f: seq<seq<Node?>>, h: seq<nat>, k: nat, i: nat, p: nat)
    requires Tall(f, h) && Distinct(a) && |a| == |f| && k + 1 < |f| && Bypassed(a, f, h, k, i)
    requires h[0] > i && i <= h[k + 1] && p == Pred(h, k, i)
    ensures f[p][i] == a[k + 1] <==> i < h[k + 1]
    ensures i < h[k + 1] ==>
              var f' := f[p := f[p][i := f[k + 1][i]]]; Tall(f', h) && Bypassed(a, f', h, k, i + 1)
  {
    PredIsTheJump(h, k, i, p);
    NextIs(h, k, i, k + 1);
    DistinctFrom(a, k + 1);
    if i < h[k + 1] {
      var f' := f[p := f[p][i := f[k + 1][i]]];
      forall q, j {:trigger f'[q][j]} | 0 <= q < |f'| && 0 <= j < h[q]
        ensures f'[q][j] == At(a, if j < i + 1 && Next(h, q, j) == k + 1 then Next(h, k + 1, j) else Next(h, q, j))
      {
        if j == i && q <= k { PredIsTheJump(h, k, i, q); }
      }
    }
  }

  lemma {:induction false} DeleteLinks(a: seq<Node>, a': seq<Node>, f: seq<seq<Node?>>, f': seq<seq<Node?>>,
                                       h: seq<nat>, h': seq<nat>, k: nat)
    requires Tall(f, h) && |a| == |f| && k + 1 < |f| && Bypassed(a, f, h, k, h[k + 1])
    requires Inserted(a', a, k + 1, a[k + 1]) && Inserted(f', f, k + 1, f[k + 1]) && Inserted(h', h, k + 1, h[k + 1])
    ensures Tall(f', h') && Linked(a', f', h')
  {
    var x := h[k + 1];
    assert Tall(f', h');
    forall p, i {:trigger f'[p][i]} | 0 <= p < |f'| && 0 <= i < h'[p]
      ensures f'[p][i] == At(a', Next(h', p, i))
    {
      if p > k {
        NextBehindInsert(h', h, k, x, p, i);
      } else if Next(h', p, i) <= k {
        NextBeforeInsert(h', h, k, x, p, i);
      } else {
        NextOverInsert(h', h, k, x, p, i);
        NextFromInserted(h', h, k, x, i);
        NextIs(h', p, i, Next(h', p, i));
        NextIs(h', k, i, Next(h', p, i));
      }
    }
  }

  /** Everything about the nodes but the heap: order, heights and pointers. */
  ghost predicate Arranged(a: seq<Node>, f: seq<seq<Node?>>, h: seq<nat>, pairs: seq<Pair>) {
    && |a| == |f| == |h| == |pairs| + 1 && Distinct(a) && Tall(f, h)
    && (forall p :: 1 <= p < |a| ==> a[p].pair == pairs[p - 1])
    && h[0] == MAX_LEVEL && (forall p :: 1 <= p < |h| ==> 1 <= h[p])
    && Sorted(pairs)
  }

  lemma {:induction false} GrowKeepsArranged(
      a: seq<Node>, f: seq<seq<Node?>>, h: seq<nat>, s: seq<Pair>,
      a': seq<Node>, f': seq<seq<Node?>>, h': seq<nat>, s': seq<Pair>, k: nat, n: Node, g: seq<Node?>)
    requires Arranged(a, f, h, s) && k == Cut(s, AtPair(n.pair)) && n !in a && 1 <= |g|
    requires Inserted(a, a', k + 1, n) && Inserted(f, f', k + 1, g) && Inserted(h, h', k + 1, |g|)
    requires Inserted(s, s', k, n.pair)
    ensures Arranged(a', f', h', s')
  {
    InsertKeepsOrder(s, s', n.pair);
    forall p, q | 0 <= p < q < |a'| ensures Differ(a', p, q) {
      if p != k + 1 && q != k + 1 { assert Differ(a, if p <= k then p else p - 1, if q <= k then q else q - 1); }
    }
  }

  lemma {:induction false} ShrinkKeepsArranged(
      a: seq<Node>, f: seq<seq<Node?>>, h: seq<nat>, s: seq<Pair>,
      a': seq<Node>, f': seq<seq<Node?>>, h': seq<nat>, s': seq<Pair>, k: nat)
    requires Arranged(a, f, h, s) && k < |s|
    requires Inserted(a', a, k + 1, a[k + 1]) && Inserted(f', f, k + 1, f[k + 1]) && Inserted(h', h, k + 1, h[k + 1])
    requires Inserted(s', s, k, s[k])
    ensures Arranged(a', f', h', s')
  {
    RemoveKeepsOrder(s, s', k);
    forall p, q | 0 <= p < q < |a'| ensures Differ(a', p, q) {
      assert Differ(a, if p <= k then p else p + 1, if q <= k then q else q + 1);
    }
  }

  lemma {:induction false} With(a: seq<Node>, f: seq<seq<Node?>>, h: seq<nat>, s: seq<Pair>, k: nat, n: Node, g: seq<Node?>)
      returns (a': seq<Node>, f': seq<seq<Node?>>, h': seq<nat>, s': seq<Pair>)
    requires Arranged(a, f, h, s) && k == Cut(s, AtPair(n.pair)) && n !in a && 1 <= |g| && Redirected(a, f, h, k, |g|, n)
    requires forall j :: 0 <= j < |g| ==> g[j] == At(a, Next(h, k, j))
    ensures Arranged(a', f', h', s') && Linked(a', f', h')
    ensures Inserted(a, a', k + 1, n) && Inserted(f, f', k + 1, g) && Inserted(h, h', k + 1, |g|) && Inserted(s, s', k, n.pair)
  {
    a' := InsertAt(a, k + 1, n);
    f' := InsertAt(f, k + 1, g);
    h' := InsertAt(h, k + 1, |g|);
    s' := InsertAt(s, k, n.pair);
    InsertLinks(a, a', f, f', h, h', k, n, g);
    GrowKeepsArranged(a, f, h, s, a', f', h', s', k, n, g);
  }

  lemma {:induction false} Without(a: seq<Node>, f: seq<seq<Node?>>, h: seq<nat>, s: seq<Pair>, k: nat)
      returns (a': seq<Node>, f': seq<seq<Node?>>, h': seq<nat>, s': seq<Pair>)
    requires Arranged(a, f, h, s) && k < |s| && Bypassed(a, f, h, k, h[k + 1])
    ensures Arranged(a', f', h', s') && Linked(a', f', h')
    ensures Inserted(a', a, k + 1, a[k + 1]) && Inserted(f', f, k + 1, f[k + 1]) && Inserted(h', h, k + 1, h[k + 1])
    ensures Inserted(s', s, k, s[k])
  {
    a' := RemoveAt(a, k + 1);
    f' := RemoveAt(f, k + 1);
    h' := RemoveAt(h, k + 1);
    s' := RemoveAt(s, k);
    DeleteLinks(a, a', f, f', h, h', k);
    ShrinkKeepsArranged(a, f, h, s, a', f', h', s', k);
  }

  /** The summary fields: `level` is the highest level in use, or 1; `tail` is the last node, if any. */
  ghost predicate Summary(a: seq<Node>, h: seq<nat>, level: nat, tail: Node?) {
    && 1 <= |a| == |h| && 1 <= level <= MAX_LEVEL
    && (forall p :: 1 <= p < |h| ==> h[p] <= level)
    && (level > 1 ==> Next(h, 0, level - 1) < |h|)
    && tail == (if |a| == 1 then null else a[|a| - 1])
  }

  lemma {:induction false} GrowSummary(a: seq<Node>, a': seq<Node>, h: seq<nat>, h': seq<nat>, k: nat, n: Node, x: nat,
                                       level: nat, tail: Node?)
    requires Inserted(a, a', k + 1, n) && Inserted(h, h', k + 1, x) && 1 <= x <= MAX_LEVEL
    requires Summary(a, h, level, tail)
    ensures Summary(a', h', if x > level then x else level, if k + 1 == |a| then n else tail)
  {
    if x >= level {
      NextFinds(h', 0, x - 1, k + 1);
    } else {
      var q := Next(h, 0, level - 1);
      NextFinds(h', 0, level - 1, if q <= k then q else q + 1);
    }
  }

  lemma {:induction false} ShrinkSummary(a: seq<Node>, a': seq<Node>, h: seq<nat>, h': seq<nat>, k: nat, target: Node,
                                         level: nat, tail: Node?)
    requires |h| > k + 1 && Inserted(a', a, k + 1, target) && Inserted(h', h, k + 1, h[k + 1]) && Distinct(a) && |a'| >= 1
    requires Summary(a, h, level, tail)
    ensures forall p :: 1 <= p < |h'| ==> h'[p] <= level
    ensures (if target == tail then if a[k] == a'[0] then null else a[k] else tail) == if |a'| == 1 then null else a'[|a'| - 1]
  {
    DistinctFrom(a, 0);
    DistinctFrom(a, k + 1);
    forall p | 1 <= p < |h'| ensures h'[p] <= level { assert h'[p] == h[if p <= k then p else p + 1]; }
  }

  class SkipList {
    var header: Node
    var tail: Node?
    var level: nat
    var length: nat

    /** The pairs in list order: the abstract value. */
    ghost var pairs: seq<Pair>
    /** The header followed by the nodes in list order, their heights and their forward pointers. */
    ghost var all: seq<Node>
    ghost var heights: seq<nat>
    ghost var links: seq<seq<Node?>>

    /** The nodes, their order and their pointers. */
    ghost predicate Shape()
      reads `all, `links, `heights, `pairs, `header, all
    {
      && Arranged(all, links, heights, pairs) && all[0] == header
      && Shows(all, links) && Linked(all, links, heights)
    }

    ghost predicate Valid()
      reads this, all
    {
      Shape() && Summary(all, heights, level, tail) && length == |pairs|
    }

    constructor ()
      ensures Valid() && pairs == [] && heights == [MAX_LEVEL] && fresh(all)
      ensures |header.forward| == 16 && level == 1
    {
      var h := new Node(Pair([], 0.0), MAX_LEVEL);
      header := h;
      tail := null;
      level := 1;
      length := 0;
      pairs := [];
      all := [h];
      heights := [MAX_LEVEL];
      links := [h.forward];
    }

    /** At least 1, at most MAX_LEVEL, decided by coin tosses. */
    method RandomLevel() returns (level: nat)
      ensures 1 <= level <= MAX_LEVEL
    {
      level := 1;
      while level < MAX_LEVEL
        invariant 1 <= level <= MAX_LEVEL
      {
        if * { break; }
        level := level + 1;
      }
    }

    /**
     The descent shared by all operations. `update[i]` is the last node before the bound on level `i`;
     `hops` is the number of forward steps taken, on whatever level.
     */
    method Descend(b: Bound) returns (update: seq<Node>, hops: nat)
      requires Valid()
      ensures |update| == level
      ensures forall i :: 0 <= i < level ==> update[i] == all[Pred(heights, Cut(pairs, b), i)]
      ensures hops == Seen(heights, Cut(pairs, b), Cut(pairs, b))
    {
      ghost var k := Cut(pairs, b);
      CutSplits(pairs, b);
      var x, i := header, level;
      ghost var p := 0;
      update, hops := seq(level, _ => x), 0;
      while i > 0
        invariant 0 <= i <= level
        invariant 0 <= p <= k && x == all[p] && heights[p] > i - 1 && hops == Seen(heights, p, k)
        invariant forall r :: p < r <= k ==> heights[r] <= i
        invariant |update| == level
        invariant forall j :: i <= j < level ==> update[j] == all[Pred(heights, k, j)]
      {
        i := i - 1;
        x, hops, p := Walk(b, x, i, hops, p);
        update := update[i := x];
      }
      ghost var height := heights[k];
      assert p == k;
    }

    /** The descent on one level: forward while the next node lies before the bound. */
    method Walk(b: Bound, from: Node, i: nat, hops0: nat, ghost p0: nat) returns (x: Node, hops: nat, ghost p: nat)
      requires Valid() && p0 <= Cut(pairs, b) && from == all[p0] && heights[p0] > i && i < MAX_LEVEL
      requires hops0 == Seen(heights, p0, Cut(pairs, b))
      requires forall r :: p0 < r <= Cut(pairs, b) ==> heights[r] <= i + 1
      ensures p <= Cut(pairs, b) && x == all[p] && heights[p] > i && hops == Seen(heights, p, Cut(pairs, b))
      ensures p == Pred(heights, Cut(pairs, b), i) && forall r :: p < r <= Cut(pairs, b) ==> heights[r] <= i
    {
      ghost var k := Cut(pairs, b);
      CutSplits(pairs, b);
      x, hops, p := from, hops0, p0;
      while x.forward[i] != null && Before(x.forward[i].pair, b)
        invariant 0 <= p <= k && x == all[p] && heights[p] > i && hops == Seen(heights, p, k)
        invariant forall r :: p < r <= k ==> heights[r] <= i + 1
        decreases k - p
      {
        assert x.forward[i] == links[p][i];
        SeenHop(heights, p, i, k);
        p := Next(heights, p, i);
        hops := hops + 1;
        x := x.forward[i];
      }
      assert x.forward[i] == links[p][i];
      PredIsTheJump(heights, k, i, p);
      PredIs(heights, k, i, p);
    }

    /** Put the new node behind the nodes `update`, on each of its levels. */
    method Relink(update: seq<Node>, n: Node, ghost k: nat)
      requires Arranged(all, links, heights, pairs) && Shows(all, links) && Linked(all, links, heights) && k < |all|
      requires n !in all && |n.forward| <= MAX_LEVEL && |n.forward| <= |update|
      requires forall i :: 0 <= i < |n.forward| ==> update[i] == all[Pred(heights, k, i)]
      modifies all, n, `links
      ensures |n.forward| == old(|n.forward|)
      ensures Arranged(all, links, heights, pairs) && Shows(all, links)
      ensures Redirected(all, links, heights, k, |n.forward|, n)
      ensures forall j :: 0 <= j < |n.forward| ==> n.forward[j] == At(all, Next(heights, k, j))
    {
      for i := 0 to |n.forward|
        invariant |n.forward| == old(|n.forward|)
        invariant Shows(all, links) && Tall(links, heights)
        invariant Redirected(all, links, heights, k, i, n)
        invariant forall j :: 0 <= j < i ==> n.forward[j] == At(all, Next(heights, k, j))
      {
        ghost var p := Pred(heights, k, i);
        RedirectOne(all, links, heights, k, i, n, p);
        DistinctFrom(all, p);
        n.forward := n.forward[i := update[i].forward[i]];
        update[i].forward := update[i].forward[i := n];
        links := links[p := links[p][i := n]];
      }
    }

    /** Record the linked node in the ghost state. */
    ghost method Grow(n: Node, k: nat)
      requires Arranged(all, links, heights, pairs) && all[0] == header && k == Cut(pairs, AtPair(n.pair))
      requires Shows(all, links) && Redirected(all, links, heights, k, |n.forward|, n)
      requires n !in all && 1 <= |n.forward| <= MAX_LEVEL
      requires forall j :: 0 <= j < |n.forward| ==> n.forward[j] == At(all, Next(heights, k, j))
      modifies `all, `heights, `links, `pairs
      ensures Shape()
      ensures Inserted(old(all), all, k + 1, n) && Inserted(old(heights), heights, k + 1, |n.forward|)
      ensures Inserted(old(pairs), pairs, k, n.pair)
    {
      var a, f, h, s := With(all, links, heights, pairs, k, n, n.forward);
      all, links, heights, pairs := a, f, h, s;
    }

    /** On the levels above the list's own, the header is the predecessor. */
    method Raise(low: seq<Node>, height: nat, ghost k: nat) returns (update: seq<Node>)
      requires Valid() && |low| == level && height <= MAX_LEVEL && k < |all|
      requires forall i :: 0 <= i < level ==> low[i] == all[Pred(heights, k, i)]
      ensures height <= |update| <= MAX_LEVEL
      ensures forall i :: 0 <= i < |update| ==> update[i] == all[Pred(heights, k, i)]
    {
      update := low;
      for i := level to if height < level then level else height
        invariant |update| == i
        invariant forall j :: 0 <= j < i ==> update[j] == all[Pred(heights, k, j)]
      {
        PredIs(heights, k, i, 0);
        update := update + [header];
      }
    }

    /** Link a new node in behind `update`. */
    method LinkIn(update: seq<Node>, n: Node, ghost k: nat)
      requires Shape() && k == Cut(pairs, AtPair(n.pair)) && n !in all
      requires 1 <= |n.forward| <= |update| <= MAX_LEVEL
      requires forall i :: 0 <= i < |update| ==> update[i] == all[Pred(heights, k, i)]
      modifies all, n, `all, `heights, `links, `pairs
      ensures Shape() && |n.forward| == old(|n.forward|)
      ensures Inserted(old(all), all, k + 1, n) && Inserted(old(heights), heights, k + 1, |n.forward|)
      ensures Inserted(old(pairs), pairs, k, n.pair)
      ensures n.forward[0] == null <==> k == old(|pairs|)
      ensures forall m :: m in all ==> m in old(all) || m == n
    {
      NextIs(heights, k, 0, k + 1);
      Relink(update, n, k);
      Grow(n, k);
      assert forall p :: 0 <= p < |all| && p != k + 1 ==> all[p] == old(all)[if p <= k then p else p - 1];
    }

    /** Bring `level`, `tail` and `length` up to date with a node that has just been linked in. */
    method Account(n: Node)
      requires Shape() && 1 <= |n.forward| && length + 1 == |pairs|
      requires Summary(all, heights, if |n.forward| > level then |n.forward| else level, if n.forward[0] == null then n else tail)
      modifies `level, `tail, `length
      ensures Valid()
    {
      if |n.forward| > level {
        level := |n.forward|;
      }
      if n.forward[0] == null {
        tail := n;
      }
      length := length + 1;
      assert Shape();
    }

    /** Insert is total: the new pair goes in front of every pair that is not smaller. */
    method Insert(pair: Pair)
      requires Valid()
      modifies this, all
      ensures Valid()
      ensures Inserted(old(pairs), pairs, Cut(old(pairs), AtPair(pair)), pair)
      ensures forall n :: n in all ==> n in old(all) || fresh(n)
    {
      var height := RandomLevel();
      InsertOfHeight(pair, height);
    }

    /** Insert when the coins have given the new node its height. */
    method InsertOfHeight(pair: Pair, height: nat)
      requires Valid() && 1 <= height <= MAX_LEVEL
      modifies this, all
      ensures Valid()
      ensures Inserted(old(pairs), pairs, Cut(old(pairs), AtPair(pair)), pair)
      ensures Inserted(old(heights), heights, Cut(old(pairs), AtPair(pair)) + 1, height)
      ensures forall n :: n in all ==> n in old(all) || fresh(n)
    {
      ghost var k := Cut(pairs, AtPair(pair));
      var update := FindPlace(pair, height);
      Place(update, pair, height, k);
    }

    /** The predecessors of a new node, level by level. */
    method FindPlace(pair: Pair, height: nat) returns (update: seq<Node>)
      requires Valid() && height <= MAX_LEVEL
      ensures Valid() && height <= |update| <= MAX_LEVEL
      ensures forall i :: 0 <= i < |update| ==> update[i] == all[Pred(heights, Cut(pairs, AtPair(pair)), i)]
    {
      var low, _ := Descend(AtPair(pair));
      assert Valid();
      update := Raise(low, height, Cut(pairs, AtPair(pair)));
    }

    /** A new node of the given height behind `update`. */
    method Place(update: seq<Node>, pair: Pair, height: nat, ghost k: nat)
      requires Valid() && k == Cut(pairs, AtPair(pair)) && 1 <= height <= |update| <= MAX_LEVEL
      requires forall i :: 0 <= i < |update| ==> update[i] == all[Pred(heights, k, i)]
      modifies this, all
      ensures Valid() && Inserted(old(pairs), pairs, k, pair) && Inserted(old(heights), heights, k + 1, height)
      ensures forall n :: n in all ==> n in old(all) || fresh(n)
    {
      var n := new Node(pair, height);
      ghost var a, h := all, heights;
      assert Shape();
      LinkIn(update, n, k);
      GrowSummary(a, all, h, heights, k, n, height, level, tail);
      Account(n);
    }

    /** Lead the pointers past the node at `k + 1`, level by level, until a level does not reach it. */
    method Bypass(update: seq<Node>, target: Node, ghost k: nat)
      requires Shape() && k + 1 < |all| && target == all[k + 1] && heights[k + 1] <= level <= |update| <= MAX_LEVEL
      requires forall i :: 0 <= i < |update| ==> update[i] == all[Pred(heights, k, i)]
      modifies all, `links
      ensures Arranged(all, links, heights, pairs) && Shows(all, links)
      ensures Bypassed(all, links, heights, k, heights[k + 1])
    {
      var i := 0;
      while i < level
        invariant 0 <= i <= heights[k + 1]
        invariant Tall(links, heights) && Shows(all, links) && Bypassed(all, links, heights, k, i)
      {
        var reached := BypassLevel(update[i], target, k, i);
        if !reached {
          break;
        }
        i := i + 1;
      }
    }

    /** One level: whether the level reaches the node, and if so the pointer past it. */
    method BypassLevel(pred: Node, target: Node, ghost k: nat, i: nat) returns (reached: bool)
      requires |all| == |links| && k + 1 < |all| && target == all[k + 1] && Distinct(all)
      requires Tall(links, heights) && Shows(all, links) && Bypassed(all, links, heights, k, i)
      requires heights[0] > i && i <= heights[k + 1] && pred == all[Pred(heights, k, i)]
      modifies pred, `links
      ensures reached <==> i < heights[k + 1]
      ensures Tall(links, heights) && Shows(all, links)
      ensures Bypassed(all, links, heights, k, if reached then i + 1 else i)
    {
      ghost var p := Pred(heights, k, i);
      BypassOne(all, links, heights, k, i, p);
      DistinctFrom(all, p);
      assert pred.forward == links[p] && target.forward == links[k + 1];
      reached := pred.forward[i] == target;
      if reached {
        pred.forward := pred.forward[i := target.forward[i]];
        links := links[p := links[p][i := links[k + 1][i]]];
      }
    }

    /** Take the bypassed node out of the ghost state. */
    ghost method Shrink(k: nat)
      requires Arranged(all, links, heights, pairs) && all[0] == header && Shows(all, links) && k < |pairs|
      requires Bypassed(all, links, heights, k, heights[k + 1])
      modifies `all, `heights, `links, `pairs
      ensures Shape()
      ensures Inserted(all, old(all), k + 1, old(all)[k + 1]) && Inserted(heights, old(heights), k + 1, old(heights)[k + 1])
      ensures Inserted(pairs, old(pairs), k, old(pairs)[k])
    {
      var a, f, h, s := Without(all, links, heights, pairs, k);
      all, links, heights, pairs := a, f, h, s;
    }

    method Unlink(update: seq<Node>, target: Node, ghost k: nat)
      requires Shape() && k < |pairs| && target == all[k + 1] && heights[k + 1] <= level <= |update| <= MAX_LEVEL
      requires forall i :: 0 <= i < |update| ==> update[i] == all[Pred(heights, k, i)]
      modifies all, `all, `heights, `links, `pairs
      ensures Shape()
      ensures Inserted(all, old(all), k + 1, target) && Inserted(heights, old(heights), k + 1, old(heights)[k + 1])
      ensures Inserted(pairs, old(pairs), k, target.pair)
      ensures forall n :: n in all ==> n in old(all)
    {
      Bypass(update, target, k);
      Shrink(k);
      assert forall p :: 0 <= p < |all| ==> all[p] == old(all)[if p <= k then p else p + 1];
    }

    /** Drop the levels that have become empty. */
    method Lower()
      requires Shape() && 1 <= level <= MAX_LEVEL
      requires forall p :: 1 <= p < |all| ==> heights[p] <= level
      modifies `level
      ensures Shape() && 1 <= level <= MAX_LEVEL
      ensures forall p :: 1 <= p < |all| ==> heights[p] <= level
      ensures level > 1 ==> Next(heights, 0, level - 1) < |all|
    {
      while level > 1 && header.forward[level - 1] == null
        invariant Shape() && 1 <= level <= MAX_LEVEL
        invariant forall p :: 1 <= p < |all| ==> heights[p] <= level
      {
        assert links[0][level - 1] == null;
        NextIs(heights, 0, level - 1, |all|);
        level := level - 1;
        assert Shape();
      }
      assert header.forward[level - 1] == links[0][level - 1];
    }

    /** Bring `tail`, `level` and `length` up to date with a node that has just been taken out. */
    method Discount(before: Node, target: Node, ghost a: seq<Node>, ghost h: seq<nat>, ghost k: nat)
      requires Shape() && length == |pairs| + 1 && Distinct(a) && |h| > k + 1
      requires Inserted(all, a, k + 1, target) && Inserted(heights, h, k + 1, h[k + 1]) && Summary(a, h, level, tail)
      requires before == a[k]
      modifies `level, `tail, `length
      ensures Valid()
    {
      ShrinkSummary(a, all, h, heights, k, target, level, tail);
      if target == tail {
        tail := if before == header then null else before;
      }
      length := length - 1;
      assert Shape();
      Lower();
    }

    /** The node behind `update` goes. */
    method TakeOut(update: seq<Node>, target: Node, ghost k: nat)
      requires Valid() && k < |pairs| && target == all[k + 1] && |update| == level
      requires forall i :: 0 <= i < |update| ==> update[i] == all[Pred(heights, k, i)]
      modifies this, all
      ensures Valid() && Inserted(pairs, old(pairs), k, target.pair)
      ensures forall n :: n in all ==> n in old(all)
    {
      ghost var a, h := all, heights;
      AfterPred(k);
      Unlink(update, target, k);
      Discount(update[0], target, a, h, k);
    }

    /** Delete removes the pair when it is present, and then exactly one occurrence of it. */
    method Delete(pair: Pair) returns (deleted: bool)
      requires Valid()
      modifies this, all
      ensures Valid()
      ensures deleted <==> pair in old(pairs)
      ensures if deleted then Inserted(pairs, old(pairs), Cut(old(pairs), AtPair(pair)), pair) else pairs == old(pairs)
      ensures forall n :: n in all ==> n in old(all)
    {
      ghost var k := Cut(pairs, AtPair(pair));
      PairAtCut(pairs, pair);
      var update, _ := Descend(AtPair(pair));
      assert Valid();
      AfterPred(k);
      var target := update[0].forward[0];
      if target != null && target.pair == pair {
        TakeOut(update, target, k);
        return true;
      }
      return false;
    }

    /** On level 0 the predecessor of position `k + 1` is position `k`, and its pointer leads there. */
    lemma {:induction false} AfterPred(k: nat)
      requires Shape() && k < |all|
      ensures Pred(heights, k, 0) == k && all[k].forward[0] == At(all, k + 1)
    {
      PredIs(heights, k, 0, k);
      NextIs(heights, k, 0, k + 1);
      assert all[k].forward == links[k];
      assert links[k][0] == At(all, Next(heights, k, 0));
    }

    method CountInRange(min: real, max: real) returns (count: nat)
      requires Valid()
      ensures count == |InRange(pairs, min, max)|
    {
      ghost var k, r := Cut(pairs, AtScore(min)), InRange(pairs, min, max);
      InRangeIsSlice(pairs, min, max);
      var update, _ := Descend(AtScore(min));
      AfterPred(k);
      count := CountFrom(update[0].forward[0], max, k, r);
    }

    /** Walk level 0 from `x` while the score is at most `max`. */
    method CountFrom(x: Node?, max: real, ghost k: nat, ghost r: seq<Pair>) returns (count: nat)
      requires Shape() && k + |r| <= |pairs| && x == At(all, k + 1)
      requires forall i :: 0 <= i < |r| ==> r[i] == pairs[k + i] && r[i].score <= max
      requires k + |r| < |pairs| ==> pairs[k + |r|].score > max
      ensures count == |r|
    {
      var y := x;
      count := 0;
      while y != null && y.pair.score <= max
        invariant count <= |r| && y == At(all, k + 1 + count)
        decreases |r| - count
      {
        AfterPred(k + 1 + count);
        count := count + 1;
        y := y.forward[0];
      }
      assert count < |r| ==> r[count].score <= max;
    }

    method RangeByScore(min: real, max: real, offset: int, count: int) returns (result: seq<bytes>)
      requires Valid()
      ensures result == Members(Limit(InRange(pairs, min, max), offset, count))
    {
      ghost var k, r := Cut(pairs, AtScore(min)), InRange(pairs, min, max);
      InRangeIsSlice(pairs, min, max);
      var update, _ := Descend(AtScore(min));
      AfterPred(k);
      result := CollectLimited(update[0].forward[0], max, offset, count, k, r);
    }

    /** Walk level 0 from `x` while the score is at most `max`, skipping `offset` pairs and stopping at `count`. */
    method CollectLimited(x: Node?, max: real, offset: int, count: int, ghost k: nat, ghost r: seq<Pair>)
        returns (result: seq<bytes>)
      requires Shape() && k + |r| <= |pairs| && x == At(all, k + 1)
      requires forall i :: 0 <= i < |r| ==> r[i] == pairs[k + i] && r[i].score <= max
      requires k + |r| < |pairs| ==> pairs[k + |r|].score > max
      ensures result == Members(Limit(r, offset, count))
    {
      result := [];
      var y, skipped := x, 0;
      while y != null && y.pair.score <= max
        invariant 0 <= skipped && skipped + |result| <= |r| && y == At(all, k + 1 + skipped + |result|)
        invariant if offset <= 0 then skipped == 0 else skipped <= offset && (result != [] ==> skipped == offset)
        invariant count > 0 ==> |result| < count
        invariant forall i :: 0 <= i < |result| ==> result[i] == r[skipped + i].member
        decreases |r| - skipped - |result|
      {
        AfterPred(k + 1 + skipped + |result|);
        assert y.pair == r[skipped + |result|];
        if offset < 0 || skipped >= offset {
          result := result + [y.pair.member];
          if count > 0 && |result| >= count {
            break;
          }
        } else {
          skipped := skipped + 1;
        }
        y := y.forward[0];
      }
      assert skipped + |result| < |r| ==> r[skipped + |result|].score <= max;
      LimitIs(r, offset, count, skipped, result);
    }

    method RangeByRank(start: int, stop: int) returns (result: seq<bytes>)
      requires Valid()
      ensures result == Members(RankSlice(pairs, start, stop))
    {
      result := [];
      var from := if start < 0 then length + start else start;
      var to := if stop < 0 then length + stop else stop;
      if from < 0 { from := 0; }
      if to >= length { to := length - 1; }
      if from > to || from >= length {
        return;
      }
      RankSliceIs(pairs, start, stop, from, to);
      var x := NodeAt(from);
      result := Collect(x, from, to + 1);
    }

    /** Walk level 0 to the node of rank `rank`. */
    method NodeAt(rank: nat) returns (x: Node?)
      requires Shape()
      ensures x == At(all, rank + 1)
    {
      AfterPred(0);
      x := header.forward[0];
      var i := 0;
      while i < rank && x != null
        invariant 0 <= i <= rank && i <= |pairs| && x == At(all, i + 1)
      {
        AfterPred(i + 1);
        x := x.forward[0];
        i := i + 1;
      }
    }

    /** The members from position `from` up to position `to`, walking level 0 from `x`. */
    method Collect(x: Node?, from: nat, to: nat) returns (result: seq<bytes>)
      requires Shape() && from <= to <= |pairs| && x == At(all, from + 1)
      ensures result == Members(pairs[from..to])
    {
      var y := x;
      result := [];
      for i := from to to
        invariant y == At(all, i + 1)
        invariant |result| == i - from && forall j :: 0 <= j < |result| ==> result[j] == pairs[from + j].member
      {
        AfterPred(i + 1);
        result := result + [y.pair.member];
        y := y.forward[0];
      }
    }

    /**
     GetRank adds 1 per hop, whatever the level of the hop. For a pair of the list the result is at most the
     true index, and it is the true index exactly when the heights of the nodes in front never increase.
     */
    method GetRank(member: bytes, score: real) returns (rank: int)
      requires Valid()
      ensures member !in Members(pairs) ==> rank == -1
      ensures Pair(member, score) in pairs ==>
                var k := Cut(pairs, AtPair(Pair(member, score)));
                && 0 <= rank <= k < |pairs| && pairs[k] == Pair(member, score) && rank == Seen(heights, k, k)
                && (rank == k <==> NonIncreasing(heights, k))
                && (level == 1 ==> rank == k)
    {
      ghost var k := Cut(pairs, AtPair(Pair(member, score)));
      PairAtCut(pairs, Pair(member, score));
      SeesAllIffNonIncreasing(heights, k);
      var update, hops := Descend(AtPair(Pair(member, score)));
      AfterPred(k);
      var x := update[0].forward[0];
      if x != null && x.pair.member == member {
        assert x.pair == pairs[k] && Members(pairs)[k] == member;
        return hops;
      }
      return -1;
    }
  }

  // ----- a rank that falls short -----

  lemma {:induction false} CutAtFront(s: seq<Pair>, pair: Pair)
    requires Sorted(s) && (s != [] ==> Less(pair, s[0]))
    ensures Cut(s, AtPair(pair)) == 0
  {
    CutSplits(s, AtPair(pair));
    if s != [] {
      LessIsStrictTotalOrder(pair, s[0], pair);
      assert !Before(s[0], AtPair(pair));
    }
  }

  lemma {:induction false} HiddenNode()
    ensures Seen([MAX_LEVEL, 1, 2, 1], 2, 2) == 1
  {
    var h := [MAX_LEVEL, 1, 2, 1];
    assert h[2] > h[1] && !Visible(h, 1, 2) && Visible(h, 2, 2);
    assert Seen(h, 1, 2) == 0;
  }

  /**
   Three inserts whose nodes get the heights 1, 2 and 1: the search for the last pair hops over the first node, so
   GetRank gives 1 for the member that RangeByRank finds at 2.
   */
  method RankFallsShort() returns (rank: int, atTwo: seq<bytes>)
    ensures rank == 1 && atTwo == [[99]]
  {
    var a, b, c := Pair([97], 1.0), Pair([98], 2.0), Pair([99], 3.0);
    var list := ThreeNodes(a, b, c);
    HiddenNode();
    atTwo := list.RangeByRank(2, 2);
    assert RankSlice(list.pairs, 2, 2) == [c];
    rank := list.GetRank([99], 3.0);
    ghost var k := Cut(list.pairs, AtPair(c));
    assert c in list.pairs && list.pairs[k] == c;
    assert k == 2;
  }

  method ThreeNodes(a: Pair, b: Pair, c: Pair) returns (list: SkipList)
    requires Less(a, b) && Less(b, c)
    ensures list.Valid() && list.pairs == [a, b, c] && list.heights == [MAX_LEVEL, 1, 2, 1]
  {
    list := new SkipList();
    AddInFront(list, c, 1, [], [MAX_LEVEL]);
    assert fresh(list.all) && list.pairs == [c] && list.heights == [MAX_LEVEL, 1];
    AddInFront(list, b, 2, [c], [MAX_LEVEL, 1]);
    assert fresh(list.all) && list.pairs == [b, c] && list.heights == [MAX_LEVEL, 2, 1];
    AddInFront(list, a, 1, [b, c], [MAX_LEVEL, 2, 1]);
  }

  method AddInFront(list: SkipList, pair: Pair, height: nat, ghost s: seq<Pair>, ghost h: seq<nat>)
    requires list.Valid() && s == list.pairs && h == list.heights && h != []
    requires 1 <= height <= MAX_LEVEL && (s != [] ==> Less(pair, s[0]))
    modifies list, list.all
    ensures list.Valid() && list.pairs == [pair] + s && list.heights == [h[0], height] + h[1..]
    ensures forall p :: 0 <= p < |list.all| ==> list.all[p] in old(list.all) || fresh(list.all[p])
  {
    CutAtFront(s, pair);
    list.InsertOfHeight(pair, height);
    InFront(s, list.pairs, h, list.heights, pair, height);
  }

  lemma {:induction false} InFront(s: seq<Pair>, s': seq<Pair>, h: seq<nat>, h': seq<nat>, pair: Pair, height: nat)
    requires Inserted(s, s', 0, pair) && Inserted(h, h', 1, height) && h != []
    ensures s' == [pair] + s && h' == [h[0], height] + h[1..]
  {
  }

  // ----- ties and ranges -----

  /** Lower scores come first, and among equal scores the members in byte order. */
  ghost predicate InFrontOf(a: Pair, b: Pair) {
    a.score < b.score || (a.score == b.score && exists i: nat :: DifferAt(a.member, b.member, i))
  }

  lemma {:induction false} StrictlySortedExactly(s: seq<Pair>)
    ensures StrictlySorted(s) <==> forall i, j :: 0 <= i < j < |s| ==> InFrontOf(s[i], s[j])
  {
    forall i, j | 0 <= i < j < |s| ensures Ordered(s, i, j) && s[i] != s[j] <==> InFrontOf(s[i], s[j]) {
      LessIsStrictTotalOrder(s[i], s[j], s[i]);
      BytesLessExactly(s[i].member, s[j].member);
    }
  }

  /** Three pairs inserted out of order. */
  method ThreeMembers(a: Pair, b: Pair, c: Pair) returns (list: SkipList)
    requires Less(a, b) && Less(b, c)
    ensures list.Valid() && list.pairs == [a, b, c]
  {
    list := new SkipList();
    InsertAtCut(list, b, [], 0);
    assert fresh(list.all) && list.pairs == [b];
    CutAtFront([b], a);
    InsertAtCut(list, a, [b], 0);
    assert fresh(list.all) && list.pairs == [a, b];
    CutAtEnd([a, b], c);
    InsertAtCut(list, c, [a, b], 2);
  }

  method InsertAtCut(list: SkipList, pair: Pair, ghost s: seq<Pair>, ghost k: nat)
    requires list.Valid() && s == list.pairs && k == Cut(s, AtPair(pair))
    modifies list, list.all
    ensures list.Valid() && list.pairs == s[..k] + [pair] + s[k..]
    ensures forall p :: 0 <= p < |list.all| ==> list.all[p] in old(list.all) || fresh(list.all[p])
  {
    list.Insert(pair);
    InsertedAt(s, list.pairs, k, pair);
  }

  lemma {:induction false} InsertedAt<T>(s: seq<T>, r: seq<T>, k: nat, x: T)
    requires Inserted(s, r, k, x)
    ensures r == s[..k] + [x] + s[k..]
  {
  }

  lemma {:induction false} CutAtEnd(s: seq<Pair>, pair: Pair)
    requires Sorted(s) && s != [] && Less(s[|s| - 1], pair)
    ensures Cut(s, AtPair(pair)) == |s|
  {
    CutSplits(s, AtPair(pair));
    assert Before(s[|s| - 1], AtPair(pair));
  }

  /** "a" and "b" at score 1.0 and "c" at 2.0. */
  ghost predicate IsExample(p: seq<Pair>) {
    |p| == 3 && p[0] == Pair([97], 1.0) && p[1] == Pair([98], 1.0) && p[2] == Pair([99], 2.0)
  }

  method Example() returns (list: SkipList)
    ensures list.Valid() && IsExample(list.pairs)
  {
    list := ThreeMembers(Pair([97], 1.0), Pair([98], 1.0), Pair([99], 2.0));
  }

  /** Equal scores come in member order; ranks are closed and count from the end when they are negative. */
  method TiesInOrder() returns (both: seq<bytes>, all: seq<bytes>, fromEnd: seq<bytes>)
    ensures both == [[97], [98]] && all == [[97], [98], [99]] && fromEnd == [[98], [99]]
  {
    var list := Example();
    ghost var p := list.pairs;
    both := list.RangeByRank(0, 1);
    all := list.RangeByRank(-9, -1);
    fromEnd := list.RangeByRank(-2, 7);
    assert RankSlice(p, 0, 1) == p[..2] && RankSlice(p, -9, -1) == p && RankSlice(p, -2, 7) == p[1..];
  }

  /** Score ranges include both ends. */
  method RangesAreClosed() returns (low: nat, high: nat, none: nat)
    ensures low == 2 && high == 1 && none == 0
  {
    var list := Example();
    ThreeInRange(list.pairs);
    low := list.CountInRange(0.5, 1.0);
    high := list.CountInRange(2.0, 3.0);
    none := list.CountInRange(1.5, 1.75);
  }

  /** An offset skips pairs of the range, and a count that is not positive keeps all. */
  method LimitedRanges() returns (second: seq<bytes>, all: seq<bytes>)
    ensures second == [[98]] && all == [[97], [98], [99]]
  {
    var list := Example();
    ThreeInRange(list.pairs);
    second := list.RangeByScore(1.0, 2.0, 1, 1);
    all := list.RangeByScore(1.0, 2.0, 0, 0);
  }

  lemma {:induction false} ThreeInRange(p: seq<Pair>)
    requires IsExample(p)
    ensures InRange(p, 0.5, 1.0) == p[..2] && InRange(p, 2.0, 3.0) == p[2..] && InRange(p, 1.5, 1.75) == []
    ensures InRange(p, 1.0, 2.0) == p && Limit(p, 1, 1) == [p[1]] && Limit(p, 0, 0) == p
  {
    InRangeOfThree(p, 0.5, 1.0);
    InRangeOfThree(p, 2.0, 3.0);
    InRangeOfThree(p, 1.5, 1.75);
    InRangeOfThree(p, 1.0, 2.0);
  }

  function OneInRange(x: Pair, min: real, max: real): seq<Pair> {
    if min <= x.score <= max then [x] else []
  }

  lemma {:induction false} InRangeOfThree(p: seq<Pair>, min: real, max: real)
    requires |p| == 3
    ensures InRange(p, min, max) == OneInRange(p[0], min, max) + OneInRange(p[1], min, max) + OneInRange(p[2], min, max)
  {
    assert InRange(p[3..], min, max) == [];
    assert p[2..][1..] == p[3..] && p[1..][1..] == p[2..];
    assert InRange(p[2..], min, max) == OneInRange(p[2], min, max) + [] == OneInRange(p[2], min, max);
    assert InRange(p[1..], min, max) == OneInRange(p[1], min, max) + OneInRange(p[2], min, max);
  }
}
