/** The consistent-hash ring of lib/consistent_hash/consistent_hash.go. */
module Ring {
  import opened Bytes
  import opened Collections

  const POINTS := 0x1_0000_0000

  type uint32 = x: int | 0 <= x < POINTS
  type Hash = bytes -> uint32

  // ----- where a key belongs -----

  /** How far one has to go clockwise from point `a` to reach point `b`. */
  function Distance(a: uint32, b: uint32): nat {
    if b >= a then b - a else b + POINTS - a
  }

  /** The node names that count: the empty name is passed over. */
  ghost predicate Member(nodes: seq<bytes>, n: bytes) {
    n in nodes && n != []
  }

  ghost predicate HasMember(nodes: seq<bytes>) {
    exists n :: Member(nodes, n)
  }

  /** No node lies nearer clockwise from the key. */
  ghost predicate IsNearest(hash: Hash, nodes: seq<bytes>, key: bytes, n: bytes) {
    && Member(nodes, n)
    && forall m :: Member(nodes, m) ==> Distance(hash(key), hash(n)) <= Distance(hash(key), hash(m))
  }

  /** Of the nodes at one point, the one named last counts. */
  ghost predicate IsLatest(hash: Hash, nodes: seq<bytes>, n: bytes) {
    exists i :: 0 <= i < |nodes| && nodes[i] == n && forall j :: i < j < |nodes| && nodes[j] != [] ==> hash(nodes[j]) != hash(n)
  }

  /** The owner of a key: the nearest node clockwise, with wrap-around. */
  ghost predicate Owns(hash: Hash, nodes: seq<bytes>, key: bytes, n: bytes) {
    IsNearest(hash, nodes, key, n) && IsLatest(hash, nodes, n)
  }

  lemma {:induction false} SameDistance(a: uint32, b: uint32, c: uint32)
    requires Distance(a, b) == Distance(a, c)
    ensures b == c
  {
  }

  lemma {:induction false} OwnerUnique(hash: Hash, nodes: seq<bytes>, key: bytes, n: bytes, m: bytes)
    requires Owns(hash, nodes, key, n) && Owns(hash, nodes, key, m)
    ensures n == m
  {
    SameDistance(hash(key), hash(n), hash(m));
    var i :| 0 <= i < |nodes| && nodes[i] == n && forall j :: i < j < |nodes| && nodes[j] != [] ==> hash(nodes[j]) != hash(n);
    var k :| 0 <= k < |nodes| && nodes[k] == m && forall j :: k < j < |nodes| && nodes[j] != [] ==> hash(nodes[j]) != hash(m);
  }

  /** Going clockwise by the distance leads to the point, with wrap-around at 2^32. */
  lemma {:induction false} ClockwiseExactly(a: uint32, b: uint32, d: nat)
    ensures d == Distance(a, b) <==> d < 0x1_0000_0000 && (a + d) % 0x1_0000_0000 == b
  {
    if a + d < 0x1_0000_0000 {
      assert (a + d) % 0x1_0000_0000 == a + d;
    } else if d < 0x1_0000_0000 {
      assert (a + d) % 0x1_0000_0000 == a + d - 0x1_0000_0000;
    }
  }

  // ----- the ring -----

  predicate Sorted(q: seq<int>) {
    forall i, j :: 0 <= i < j < |q| ==> q[i] <= q[j]
  }

  /** sort.Ints, by insertion. */
  method SortInts(q: seq<int>) returns (r: seq<int>)
    ensures Sorted(r) && multiset(r) == multiset(q)
  {
    r := [];
    for i := 0 to |q|
      invariant Sorted(r) && multiset(r) == multiset(q[..i])
    {
      assert q[..i + 1] == q[..i] + [q[i]];
      r := InsertSorted(r, q[i]);
    }
    assert q[..|q|] == q;
  }

  method InsertSorted(q: seq<int>, x: int) returns (r: seq<int>)
    requires Sorted(q)
    ensures Sorted(r) && multiset(r) == multiset(q) + multiset{x}
  {
    var k := 0;
    while k < |q| && q[k] < x
      invariant 0 <= k <= |q| && forall j :: 0 <= j < k ==> q[j] < x
    {
      k := k + 1;
    }
    r := q[..k] + [x] + q[k..];
    assert q == q[..k] + q[k..];
    Spliced(q, k, x);
  }

  lemma {:induction false} Spliced(q: seq<int>, k: nat, x: int)
    requires Sorted(q) && k <= |q| && (forall j :: 0 <= j < k ==> q[j] < x) && (k < |q| ==> x <= q[k])
    ensures Sorted(q[..k] + [x] + q[k..])
  {
  }

  /** Every point on the ring has a node, the latest one there; every node that counts is on the ring. */
  ghost predicate Shows(hash: Hash, nodes: seq<bytes>, points: set<int>, names: map<int, bytes>) {
    && points == names.Keys
    && (forall n :: Member(nodes, n) ==> hash(n) in names)
    && (forall p :: p in names ==> Member(nodes, names[p]) && hash(names[p]) == p && IsLatest(hash, nodes, names[p]))
  }

  lemma {:induction false} LatestWhenLast(hash: Hash, nodes: seq<bytes>, x: bytes)
    ensures IsLatest(hash, nodes + [x], x)
    ensures forall n :: IsLatest(hash, nodes, n) && (x == [] || hash(x) != hash(n)) ==> IsLatest(hash, nodes + [x], n)
  {
    var more := nodes + [x];
    assert more[|nodes|] == x;
    forall n | IsLatest(hash, nodes, n) && (x == [] || hash(x) != hash(n)) ensures IsLatest(hash, more, n) {
      var i :| 0 <= i < |nodes| && nodes[i] == n && forall j :: i < j < |nodes| && nodes[j] != [] ==> hash(nodes[j]) != hash(n);
      assert more[i] == n;
    }
  }

  lemma {:induction false} ShowsMore(hash: Hash, nodes: seq<bytes>, q: seq<int>, names: map<int, bytes>, x: bytes)
    requires Shows(hash, nodes, Elements(q), names)
    ensures if x == [] then Shows(hash, nodes + [x], Elements(q), names)
            else Shows(hash, nodes + [x], Elements(q + [hash(x)]), names[hash(x) := x])
  {
    LatestWhenLast(hash, nodes, x);
    assert Elements(q + [hash(x)]) == Elements(q) + {hash(x)};
  }

  lemma {:induction false} SamePoints(q: seq<int>, r: seq<int>)
    requires multiset(q) == multiset(r)
    ensures Elements(q) == Elements(r)
  {
    forall p ensures p in q <==> p in r { assert p in q <==> p in multiset(q); }
  }

  class NodeMap {
    const hash: Hash
    var nodeHashs: seq<int>
    var nodehashMap: map<int, bytes>
    /** All names handed to AddNodes so far. */
    ghost var added: seq<bytes>

    ghost predicate Valid()
      reads this
    {
      Sorted(nodeHashs) && Shows(hash, added, Elements(nodeHashs), nodehashMap)
    }

    constructor (hash: Hash)
      ensures Valid() && added == [] && this.hash == hash
    {
      this.hash := hash;
      nodeHashs, nodehashMap, added := [], map[], [];
    }

    method IsEmpty() returns (r: bool)
      requires Valid()
      ensures r <==> !HasMember(added)
    {
      if |nodeHashs| > 0 {
        assert nodeHashs[0] in Elements(nodeHashs);
        assert Member(added, nodehashMap[nodeHashs[0]]);
      }
      return |nodeHashs| == 0;
    }

    method AddNodes(nodes: seq<bytes>)
      requires Valid()
      modifies this
      ensures Valid() && added == old(added) + nodes
    {
      assert added + nodes[..0] == added;
      for i := 0 to |nodes|
        invariant added == old(added) + nodes[..i] && Shows(hash, added, Elements(nodeHashs), nodehashMap)
      {
        assert added + [nodes[i]] == old(added) + nodes[..i + 1];
        ShowsMore(hash, added, nodeHashs, nodehashMap, nodes[i]);
        added := added + [nodes[i]];
        if nodes[i] != [] {
          nodeHashs := nodeHashs + [hash(nodes[i])];
          nodehashMap := nodehashMap[hash(nodes[i]) := nodes[i]];
        }
      }
      assert nodes[..|nodes|] == nodes;
      var sorted := SortInts(nodeHashs);
      SamePoints(sorted, nodeHashs);
      nodeHashs := sorted;
    }

    /** Binary search for the first point at or behind the key's. */
    method Search(hashKey: uint32) returns (low: nat)
      requires Sorted(nodeHashs)
      ensures low <= |nodeHashs|
      ensures forall i :: 0 <= i < low ==> nodeHashs[i] < hashKey
      ensures forall i :: low <= i < |nodeHashs| ==> nodeHashs[i] >= hashKey
    {
      var high := |nodeHashs|;
      low := 0;
      while low < high
        invariant 0 <= low <= high <= |nodeHashs|
        invariant forall i :: 0 <= i < low ==> nodeHashs[i] < hashKey
        invariant forall i :: high <= i < |nodeHashs| ==> nodeHashs[i] >= hashKey
      {
        var mid := (low + high) / 2;
        if nodeHashs[mid] >= hashKey { high := mid; } else { low := mid + 1; }
      }
    }

    /** The node of the point that the search finds, and of the first point of all when there is none. */
    method PickNode(key: bytes) returns (n: bytes)
      requires Valid()
      ensures if HasMember(added) then Owns(hash, added, key, n) else n == []
    {
      var empty := IsEmpty();
      if empty {
        return [];
      }
      var hashKey := hash(key);
      var low := Search(hashKey);
      var index := if low == |nodeHashs| then 0 else low;
      var p := nodeHashs[index];
      assert p in Elements(nodeHashs);
      n := nodehashMap[p];
      forall m | Member(added, m) ensures Distance(hashKey, p) <= Distance(hashKey, hash(m)) {
        assert hash(m) in Elements(nodeHashs);
        var j :| 0 <= j < |nodeHashs| && nodeHashs[j] == hash(m);
      }
    }
  }

  // ----- adding a node -----

  /** A new node takes keys over from others and moves no key between the others. */
  lemma {:induction false} AddingMovesKeysToTheNewNode(hash: Hash, nodes: seq<bytes>, x: bytes, key: bytes, n: bytes, m: bytes)
    requires Owns(hash, nodes, key, n) && Owns(hash, nodes + [x], key, m)
    ensures m == n || m == x
  {
    if m != x {
      LatestWithout(hash, nodes, x, m);
      assert forall y :: Member(nodes, y) ==> Member(nodes + [x], y);
      OwnerUnique(hash, nodes, key, n, m);
    }
  }

  lemma {:induction false} LatestWithout(hash: Hash, nodes: seq<bytes>, x: bytes, m: bytes)
    requires IsLatest(hash, nodes + [x], m) && m != x
    ensures IsLatest(hash, nodes, m)
  {
    var more := nodes + [x];
    var i :| 0 <= i < |more| && more[i] == m && forall j :: i < j < |more| && more[j] != [] ==> hash(more[j]) != hash(m);
    assert i < |nodes| && nodes[i] == m;
    forall j | i < j < |nodes| && nodes[j] != [] ensures hash(nodes[j]) != hash(m) { assert more[j] == nodes[j]; }
  }

  // ----- the order of the names -----

  ghost predicate NoCollision(hash: Hash, nodes: seq<bytes>) {
    forall a, b :: Member(nodes, a) && Member(nodes, b) && hash(a) == hash(b) ==> a == b
  }

  ghost predicate SameOwners(hash: Hash, nodes: seq<bytes>, other: seq<bytes>) {
    forall key, n :: Owns(hash, nodes, key, n) <==> Owns(hash, other, key, n)
  }

  /** Every listing of the same names gives every key the same owner. */
  ghost predicate OrderFree(hash: Hash, nodes: seq<bytes>) {
    forall other :: multiset(other) == multiset(nodes) ==> SameOwners(hash, nodes, other)
  }

  lemma {:induction false} LastPlace(nodes: seq<bytes>, n: bytes) returns (i: nat)
    requires n in nodes
    ensures i < |nodes| && nodes[i] == n && forall j :: i < j < |nodes| ==> nodes[j] != n
  {
    var k := |nodes| - 1;
    if nodes[k] == n {
      i := k;
    } else {
      assert nodes == nodes[..k] + [nodes[k]];
      i := LastPlace(nodes[..k], n);
    }
  }

  lemma {:induction false} AloneIsLatest(hash: Hash, nodes: seq<bytes>, n: bytes)
    requires NoCollision(hash, nodes) && Member(nodes, n)
    ensures IsLatest(hash, nodes, n)
  {
    var i := LastPlace(nodes, n);
    forall j | i < j < |nodes| && nodes[j] != [] ensures hash(nodes[j]) != hash(n) { assert Member(nodes, nodes[j]); }
  }

  lemma {:induction false} SameMembers(nodes: seq<bytes>, other: seq<bytes>, n: bytes)
    requires multiset(other) == multiset(nodes)
    ensures Member(nodes, n) <==> Member(other, n)
  {
    assert n in nodes <==> n in multiset(nodes);
    assert n in other <==> n in multiset(other);
  }

  /** Without collisions all listings agree: a command forwarded to the owner is at home there. */
  lemma {:induction false} ListingsAgree(hash: Hash, nodes: seq<bytes>, other: seq<bytes>, key: bytes, n: bytes)
    requires NoCollision(hash, nodes) && multiset(other) == multiset(nodes)
    ensures Owns(hash, nodes, key, n) <==> Owns(hash, other, key, n)
  {
    forall m ensures Member(nodes, m) <==> Member(other, m) { SameMembers(nodes, other, m); }
    if Member(nodes, n) {
      AloneIsLatest(hash, nodes, n);
      AloneIsLatest(hash, other, n);
    }
  }

  lemma {:induction false} MoveToEnd(nodes: seq<bytes>, c: bytes) returns (other: seq<bytes>)
    requires c in nodes
    ensures multiset(other) == multiset(nodes) && other != [] && other[|other| - 1] == c
  {
    var i := LastPlace(nodes, c);
    assert nodes == nodes[..i] + [c] + nodes[i + 1..];
    other := nodes[..i] + nodes[i + 1..] + [c];
  }

  lemma {:induction false} OwnPointOwner(hash: Hash, nodes: seq<bytes>, a: bytes, n: bytes)
    requires Member(nodes, a) && Member(nodes, n) && hash(n) == hash(a) && IsLatest(hash, nodes, n)
    ensures Owns(hash, nodes, a, n)
  {
  }

  lemma {:induction false} Collide(hash: Hash, nodes: seq<bytes>, c: bytes, n: bytes)
    requires Member(nodes, c) && Member(nodes, n) && hash(c) == hash(n) && c != n && IsLatest(hash, nodes, n)
    ensures !OrderFree(hash, nodes)
  {
    var other := MoveToEnd(nodes, c);
    SameMembers(nodes, other, c);
    var k := |other| - 1;
    assert other == other[..k] + [c];
    LatestWhenLast(hash, other[..k], c);
    OwnPointOwner(hash, nodes, n, n);
    SameMembers(nodes, other, n);
    OwnPointOwner(hash, other, n, c);
    if Owns(hash, other, n, n) { OwnerUnique(hash, other, n, n, c); }
    assert !SameOwners(hash, nodes, other);
  }

  lemma {:induction false} LatestExists(hash: Hash, nodes: seq<bytes>, a: bytes) returns (n: bytes)
    requires Member(nodes, a)
    ensures Member(nodes, n) && hash(n) == hash(a) && IsLatest(hash, nodes, n)
    decreases |nodes|
  {
    var k := |nodes| - 1;
    var x := nodes[k];
    assert nodes == nodes[..k] + [x];
    LatestWhenLast(hash, nodes[..k], x);
    if x != [] && hash(x) == hash(a) {
      n := x;
    } else {
      n := LatestExists(hash, nodes[..k], a);
    }
  }

  lemma {:induction false} NearestExists(hash: Hash, nodes: seq<bytes>, key: bytes) returns (n: bytes)
    requires HasMember(nodes)
    ensures IsNearest(hash, nodes, key, n)
    decreases |nodes|
  {
    var k := |nodes| - 1;
    var a :| Member(nodes, a);
    var front, x := nodes[..k], nodes[k];
    assert nodes == front + [x];
    assert forall m :: Member(nodes, m) <==> Member(front, m) || (m == x && x != []);
    if HasMember(front) {
      n := NearestExists(hash, front, key);
      if x != [] && Distance(hash(key), hash(x)) < Distance(hash(key), hash(n)) { n := x; }
    } else {
      n := x;
    }
  }

  /** Every key has an owner when there is any node at all. */
  lemma {:induction false} OwnerExists(hash: Hash, nodes: seq<bytes>, key: bytes) returns (n: bytes)
    requires HasMember(nodes)
    ensures Owns(hash, nodes, key, n)
  {
    var a := NearestExists(hash, nodes, key);
    n := LatestExists(hash, nodes, a);
  }

  ghost function OwnerOf(hash: Hash, nodes: seq<bytes>, key: bytes): (n: bytes)
    requires HasMember(nodes)
    ensures Owns(hash, nodes, key, n)
  {
    assert exists n :: Owns(hash, nodes, key, n) by { var n := OwnerExists(hash, nodes, key); }
    var n :| Owns(hash, nodes, key, n);
    n
  }

  /** A ring with any node at all gives every key its owner. */
  lemma {:induction false} PickExists(hash: Hash, nodes: seq<bytes>) returns (pick: bytes -> bytes)
    requires HasMember(nodes)
    ensures forall k :: Owns(hash, nodes, k, pick(k))
  {
    pick := (k: bytes) => OwnerOf(hash, nodes, k);
    forall k ensures Owns(hash, nodes, k, pick(k)) { assert pick(k) == OwnerOf(hash, nodes, k); }
  }

  /** The owners do not depend on the order of the names exactly when no two names meet at one point. */
  lemma {:induction false} OrderFreeExactly(hash: Hash, nodes: seq<bytes>)
    ensures OrderFree(hash, nodes) <==> NoCollision(hash, nodes)
  {
    if NoCollision(hash, nodes) {
      forall other | multiset(other) == multiset(nodes) ensures SameOwners(hash, nodes, other) {
        forall key, n ensures Owns(hash, nodes, key, n) <==> Owns(hash, other, key, n) {
          ListingsAgree(hash, nodes, other, key, n);
        }
      }
    } else {
      var a, b :| Member(nodes, a) && Member(nodes, b) && hash(a) == hash(b) && a != b;
      var n := LatestExists(hash, nodes, a);
      Collide(hash, nodes, if n == a then b else a, n);
    }
  }

  /**
   Two members of a cluster, each listing its peers and then itself. When they list the same names and no two names
   collide, they send every key to the same member, so whoever gets a forwarded key finds that it is its own.
   */
  method ForwardedOnce(hash: Hash, peers: seq<bytes>, self: bytes, peers': seq<bytes>, self': bytes, key: bytes)
      returns (here: bytes, there: bytes)
    requires multiset(peers' + [self']) == multiset(peers + [self])
    requires NoCollision(hash, peers + [self])
    ensures here == there && (HasMember(peers + [self]) ==> Owns(hash, peers + [self], key, here))
  {
    var first := new NodeMap(hash);
    first.AddNodes(peers + [self]);
    assert first.added == peers + [self];
    here := first.PickNode(key);
    var second := new NodeMap(hash);
    second.AddNodes(peers' + [self']);
    assert second.added == peers' + [self'];
    there := second.PickNode(key);
    forall n ensures Member(peers + [self], n) <==> Member(peers' + [self'], n) {
      SameMembers(peers + [self], peers' + [self'], n);
    }
    if HasMember(peers + [self]) {
      ListingsAgree(hash, peers + [self], peers' + [self'], key, here);
      OwnerUnique(hash, peers' + [self'], key, here, there);
    }
  }

  // ----- an example -----

  /** Hashes of three node names and three keys: "C" shares the point of "A". */
  function SmallHash(s: bytes): uint32 {
    if s == [66] then 200 else if s == [65] || s == [67] then 100
    else if s == [49] then 150 else if s == [50] then 200 else 250
  }

  const PAIR: seq<bytes> := [[65], [66]]
  const THREE: seq<bytes> := [[65], [66], [67]]

  lemma {:induction false} SmallMembers(n: bytes)
    ensures Member(PAIR, n) <==> n == [65] || n == [66]
    ensures Member(THREE, n) <==> n == [65] || n == [66] || n == [67]
  {
    assert PAIR[0] == [65] && PAIR[1] == [66];
    assert THREE[0] == [65] && THREE[1] == [66] && THREE[2] == [67];
  }

  lemma {:induction false} SmallLatest()
    ensures IsLatest(SmallHash, PAIR, [65]) && IsLatest(SmallHash, PAIR, [66]) && IsLatest(SmallHash, THREE, [67])
  {
    assert PAIR[0] == [65] && PAIR[1] == [66];
    assert THREE[2] == [67];
  }

  lemma {:induction false} PairOwner(key: bytes, n: bytes)
    requires (key in {[49], [50]} && n == [66]) || (key == [51] && n == [65])
    ensures Owns(SmallHash, PAIR, key, n)
  {
    SmallLatest();
    SmallMembers(n);
    forall m | Member(PAIR, m) ensures Distance(SmallHash(key), SmallHash(n)) <= Distance(SmallHash(key), SmallHash(m)) {
      SmallMembers(m);
    }
  }

  lemma {:induction false} ThreeOwners()
    ensures Owns(SmallHash, THREE, [51], [67])
  {
    SmallLatest();
    forall n { SmallMembers(n); }
  }

  /**
   A key between two points goes to the next one clockwise, a key at a point to that point, and a key behind the last
   point to the first; of two names at one point the later one counts.
   */
  method PickedClockwise() returns (between: bytes, at: bytes, behind: bytes, later: bytes)
    ensures between == [66] && at == [66] && behind == [65] && later == [67]
  {
    PairOwner([49], [66]);
    PairOwner([50], [66]);
    PairOwner([51], [65]);
    ThreeOwners();
    between := PickFrom(SmallHash, PAIR, [49], [66]);
    at := PickFrom(SmallHash, PAIR, [50], [66]);
    behind := PickFrom(SmallHash, PAIR, [51], [65]);
    later := PickFrom(SmallHash, THREE, [51], [67]);
  }

  method PickFrom(hash: Hash, nodes: seq<bytes>, key: bytes, ghost owner: bytes) returns (n: bytes)
    requires Owns(hash, nodes, key, owner)
    ensures n == owner
  {
    var ring := new NodeMap(hash);
    ring.AddNodes(nodes);
    assert ring.added == nodes;
    n := ring.PickNode(key);
    OwnerUnique(hash, nodes, key, n, owner);
  }
}
