/** Going through the sharded dictionary with a cursor: DictScan of datastruct/dict/concurrent_dict.go. */
module DictScan {
  import opened Bytes
  import opened Collections
  import opened Dict
  import W = Wildcard

  /** The keys in the shards from `lo` up to `hi` that match the items. */
  ghost function Wanted<V>(contents: map<bytes, V>, home: bytes -> nat, items: seq<W.Item>, lo: nat, hi: nat): set<bytes> {
    set k | k in contents && lo <= home(k) < hi && W.Matches(items, k)
  }

  lemma {:induction false} WantedShard<V>(table: seq<map<bytes, V>>, contents: map<bytes, V>, home: bytes -> nat, items: seq<W.Item>, i: nat)
    requires Sharded(table, contents, home) && i < |table|
    ensures Wanted(contents, home, items, i, i + 1) == set k | k in table[i] && W.Matches(items, k)
  {
    var s := set k | k in table[i] && W.Matches(items, k);
    forall k ensures k in Wanted(contents, home, items, i, i + 1) <==> k in s { }
  }

  lemma {:induction false} WantedSplits<V>(contents: map<bytes, V>, home: bytes -> nat, items: seq<W.Item>, lo: nat, mid: nat, hi: nat)
    requires lo <= mid <= hi
    ensures Wanted(contents, home, items, lo, hi) == Wanted(contents, home, items, lo, mid) + Wanted(contents, home, items, mid, hi)
    ensures Wanted(contents, home, items, lo, mid) !! Wanted(contents, home, items, mid, hi)
  {
  }

  /** The matching keys of one shard, in whatever order the map is gone through. */
  method ShardKeys<V>(m: map<bytes, V>, star: bool, items: seq<W.Item>) returns (r: seq<bytes>)
    requires star ==> items == [W.All]
    ensures Lists(r, set k | k in m && W.Matches(items, k)) && |r| <= |m|
  {
    r := [];
    var rest := m.Keys;
    ghost var seen: set<bytes> := {};
    while rest != {}
      invariant rest <= m.Keys && Lists(r, seen) && |r| + |rest| <= |m.Keys|
      invariant seen == set k | k in m && k !in rest && W.Matches(items, k)
      decreases |rest|
    {
      var k :| k in rest;
      W.StarMatchesAll(k);
      var ok := star;
      if !ok { ok := W.IsMatch(items, k); }
      if ok {
        ListsMore(r, seen, k);
        r, seen := r + [k], seen + {k};
      }
      rest := rest - {k};
    }
    assert seen == set k | k in m && W.Matches(items, k);
  }

  method Keys<V>(d: ConcurrentDict<V>) returns (r: seq<bytes>)
    requires d.Valid() && |d.contents| < INT32_BOUND
    ensures Lists(r, d.contents.Keys)
  {
    r := [];
    for i := 0 to |d.table|
      invariant Lists(r, Wanted(d.contents, d.home, [W.All], 0, i))
    {
      var q := ShardKeys(d.table[i], true, [W.All]);
      WantedGrows(d.table, d.contents, d.home, [W.All], 0, i, r, q);
      r := r + q;
    }
    forall k | k in d.contents ensures k in Wanted(d.contents, d.home, [W.All], 0, |d.table|) { W.StarMatchesAll(k); }
    assert Wanted(d.contents, d.home, [W.All], 0, |d.table|) == d.contents.Keys;
  }

  ghost function ItemsOf(pattern: seq<nat>): seq<W.Item> {
    W.Compile(W.LowBytes(pattern))
  }

  predicate AllAtOnce(pattern: seq<nat>, count: int, size: int) {
    pattern == [W.STAR] && count >= size
  }

  /**
   One call: the matching keys of the shards from the cursor up to the returned cursor, each once; 0 means that the
   last shard has been reached.
   */
  method Scan<V>(d: ConcurrentDict<V>, cursor: nat, count: int, pattern: seq<nat>) returns (result: seq<bytes>, next: nat)
    requires d.Valid() && |d.contents| < INT32_BOUND
    ensures next == 0 || cursor < next < |d.table|
    ensures if AllAtOnce(pattern, count, |d.contents|) then next == 0 && Lists(result, d.contents.Keys)
            else Lists(result, Wanted(d.contents, d.home, ItemsOf(pattern), cursor, if next == 0 then |d.table| else next))
    ensures next > 0 ==> |result| + |d.table[next]| > count
    ensures |result| <= count || (cursor < |d.table| && |result| <= |d.table[cursor]|) || result == []
  {
    var size := d.Len();
    if pattern == [W.STAR] && count >= size {
      result := Keys(d);
      return result, 0;
    }
    var items := W.CompilePattern(pattern);
    var star := pattern == [W.STAR];
    if star {
      assert W.LowBytes(pattern) == [W.STAR];
      W.StarMatchesAll([]);
    }
    result, next := ScanShards(d, cursor, count, star, items);
  }

  method ScanShards<V>(d: ConcurrentDict<V>, cursor: nat, count: int, star: bool, items: seq<W.Item>)
      returns (result: seq<bytes>, next: nat)
    requires d.Valid() && (star ==> items == [W.All])
    ensures next == 0 || cursor < next < |d.table|
    ensures Lists(result, Wanted(d.contents, d.home, items, cursor, if next == 0 then |d.table| else next))
    ensures next > 0 ==> |result| + |d.table[next]| > count
    ensures |result| <= count || (cursor < |d.table| && |result| <= |d.table[cursor]|) || result == []
  {
    result := [];
    var i := cursor;
    while i < |d.table|
      invariant cursor <= i && (i <= |d.table| || i == cursor)
      invariant Lists(result, Wanted(d.contents, d.home, items, cursor, i))
      invariant |result| <= count || (i > cursor && |result| <= |d.table[cursor]|) || result == []
    {
      if |result| + |d.table[i]| > count && i > cursor {
        return result, i;
      }
      var q := ShardKeys(d.table[i], star, items);
      ghost var was := result;
      result := result + q;
      WantedGrows(d.table, d.contents, d.home, items, cursor, i, was, q);
      i := i + 1;
    }
    assert Wanted(d.contents, d.home, items, cursor, i) == Wanted(d.contents, d.home, items, cursor, |d.table|);
    return result, 0;
  }

  lemma {:induction false} WantedGrows<V>(table: seq<map<bytes, V>>, contents: map<bytes, V>, home: bytes -> nat, items: seq<W.Item>,
      cursor: nat, i: nat, r: seq<bytes>, q: seq<bytes>)
    requires Sharded(table, contents, home) && cursor <= i < |table|
    requires Lists(r, Wanted(contents, home, items, cursor, i)) && Lists(q, set k | k in table[i] && W.Matches(items, k))
    ensures Lists(r + q, Wanted(contents, home, items, cursor, i + 1))
  {
    WantedShard(table, contents, home, items, i);
    WantedSplits(contents, home, items, cursor, i, i + 1);
    ListsBoth(r, Wanted(contents, home, items, cursor, i), q, Wanted(contents, home, items, i, i + 1));
  }

  /** Following the cursor from 0 until it comes back ends, and yields every matching key exactly once. */
  method FullScan<V>(d: ConcurrentDict<V>, count: int, pattern: seq<nat>) returns (result: seq<bytes>)
    requires d.Valid() && |d.contents| < INT32_BOUND
    ensures Lists(result, set k | k in d.contents && W.Matches(ItemsOf(pattern), k))
  {
    ghost var items := ItemsOf(pattern);
    ghost var all := set k | k in d.contents && W.Matches(items, k);
    assert Wanted(d.contents, d.home, items, 0, |d.table|) == all;
    if AllAtOnce(pattern, count, |d.contents|) {
      assert W.LowBytes(pattern) == [W.STAR];
      forall k | k in d.contents ensures k in all { W.StarMatchesAll(k); }
      assert all == d.contents.Keys;
    }
    var next;
    result, next := Scan(d, 0, count, pattern);
    while next != 0
      invariant next <= |d.table|
      invariant if next == 0 then Lists(result, all) else Lists(result, Wanted(d.contents, d.home, items, 0, next))
      invariant next != 0 ==> !AllAtOnce(pattern, count, |d.contents|)
      decreases if next == 0 then 0 else |d.table| + 1 - next
    {
      var q, after := Scan(d, next, count, pattern);
      var end := if after == 0 then |d.table| else after;
      WantedSplits(d.contents, d.home, items, 0, next, end);
      ListsBoth(result, Wanted(d.contents, d.home, items, 0, next), q, Wanted(d.contents, d.home, items, next, end));
      result, next := result + q, after;
    }
  }
}
