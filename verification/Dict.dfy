/** The sharded dictionary of datastruct/dict/concurrent_dict.go. */
module Dict {
  import opened Bytes
  import opened Collections
  import opened Bits

  const UINT32 := 0x1_0000_0000

  // ----- table size -----

  /** The top `w` of the `len` bits of `n` are all ones. */
  ghost predicate TopOnes(n: nat, len: nat, w: nat) {
    w <= len && Pow2(len) - Pow2(len - w) <= n < Pow2(len)
  }

  lemma {:induction false} QuotientAtLeast(n: nat, p: nat, q: int)
    requires p > 0 && n >= q * p
    ensures n / p >= q
  {
    var k := n / p;
    assert n == p * k + n % p;
    Multiple(q - k, p);
    assert (q - k) * p == q * p - p * k;
  }

  lemma {:induction false} QuotientBelow(n: nat, p: nat, q: nat)
    requires p > 0 && n < q * p
    ensures n / p < q
  {
    var k := n / p;
    assert n == p * k + n % p;
    Multiple(k - q, p);
    assert (k - q) * p == p * k - q * p;
  }

  /** Go's `n >> w` on a non-negative integer. */
  function Shr(n: nat, w: nat): (r: nat)
    ensures r <= n
  {
    QuotientAtLeast(n, Pow2(w), 0);
    if n > 0 then
      Multiple(n + 1, Pow2(w));
      assert n < (n + 1) * Pow2(w) by { Multiple(Pow2(w), n + 1); }
      QuotientBelow(n, Pow2(w), n + 1);
      n / Pow2(w)
    else 0
  }

  /** The top digit and the low digits of a number just below `x * p`. */
  lemma {:induction false} TopDigit(n: nat, x: nat, p: nat)
    requires x > 0 && p > 0 && x * p - p <= n < x * p
    ensures n / p == x - 1 && n / x < p && n == (x - 1) * p + n % p
  {
    assert (x - 1) * p == x * p - p;
    QuotientAtLeast(n, p, x - 1);
    QuotientBelow(n, p, x);
    QuotientBelow(n, x, p);
  }

  lemma {:induction false} LowQuotient(n: nat, x: nat, p: nat, t: nat)
    requires x > 0 && n >= x * p - p && p <= t * x
    ensures n / x >= p - t
  {
    assert (p - t) * x == x * p - t * x;
    QuotientAtLeast(n, x, p - t);
  }

  /** Digits recombined: `o` lies within `t` of the top. */
  lemma {:induction false} Recombine(o: nat, x: nat, p: nat, r: nat, t: nat)
    requires x > 0 && o == (x - 1) * p + r && p - t <= r < p
    ensures x * p - t <= o < x * p
  {
    assert (x - 1) * p == x * p - p;
  }

  lemma {:induction false} OrTopDigit(n: nat, x: nat, k: nat, t: nat)
    requires x > 0 && x * Pow2(k) - Pow2(k) <= n < x * Pow2(k) && Pow2(k) <= t * x
    ensures x * Pow2(k) - t <= Or(n, n / x) < x * Pow2(k)
  {
    var p, d := Pow2(k), n / x;
    TopDigit(n, x, p);
    LowQuotient(n, x, p, t);
    var b := n % p;
    OrSplits(x - 1, b, d, k);
    OrBounds(b, d, k);
    Recombine(Or(n, d), x, p, Or(b, d), t);
  }

  lemma {:induction false} ShrIs(n: nat, w: nat)
    ensures Shr(n, w) == n / Pow2(w)
  {
    if n == 0 { ModuloIs(0, Pow2(w), 0, 0); }
  }

  /** `n |= n >> w` doubles the run of ones at the top. */
  lemma {:induction false} SmearStep(n: nat, len: nat, w: nat)
    requires 1 <= w && TopOnes(n, len, w)
    ensures TopOnes(Or(n, Shr(n, w)), len, if 2 * w <= len then 2 * w else len)
  {
    var x := Pow2(w);
    var t := if 2 * w <= len then Pow2(len - 2 * w) else 1;
    Pow2Add(w, len - w);
    if 2 * w <= len { Pow2Add(w, len - 2 * w); } else { Pow2Monotone(len - w, w); }
    OrTopDigit(n, x, len - w, t);
    ShrIs(n, w);
  }

  lemma {:induction false} BitLength(n: nat) returns (len: nat)
    requires n >= 1
    ensures len >= 1 && Pow2(len - 1) <= n < Pow2(len)
  {
    len := 1;
    while Pow2(len) <= n
      invariant len >= 1 && Pow2(len - 1) <= n
      decreases n - Pow2(len - 1)
    {
      len := len + 1;
    }
  }

  /** The smallest power of two not below `param`, from five smearing steps that cover 32 bits. */
  method ComputeCapacity(param: int) returns (size: int)
    ensures param <= 16 ==> size == 16
    ensures 16 < param <= UINT32 ==> param <= size < 2 * param && exists k :: size == Pow2(k)
  {
    if param <= 16 {
      assert Pow2(4) == 16;
      return 16;
    }
    var n := param - 1;
    ghost var len := BitLength(n);
    assert TopOnes(n, len, 1);
    n := Smear(n, len, 1);
    n := Smear(n, len, 2);
    n := Smear(n, len, 4);
    n := Smear(n, len, 8);
    n := Smear(n, len, 16);
    if param <= UINT32 {
      Pow2Of32();
      if len > 32 { Pow2Monotone(32, len - 1); }
      assert n + 1 == Pow2(len);
    }
    return n + 1;
  }

  lemma Pow2Of32()
    ensures Pow2(32) == UINT32
  {
    assert Pow2(8) == 256;
    Pow2Add(8, 8);
    Pow2Add(16, 16);
  }

  method Smear(n: nat, ghost len: nat, w: nat) returns (m: nat)
    requires w >= 1 && TopOnes(n, len, if w <= len then w else len)
    ensures TopOnes(m, len, if 2 * w <= len then 2 * w else len)
  {
    var d := Shr(n, w);
    m := Or(n, d);
    if w <= len {
      SmearStep(n, len, w);
    } else {
      SmearDone(n, len, d);
    }
  }

  lemma {:induction false} SmearDone(n: nat, len: nat, d: nat)
    requires TopOnes(n, len, len) && d <= n
    ensures TopOnes(Or(n, d), len, len)
  {
    OrBounds(n, d, len);
  }

  // ----- the shard of a key -----

  const FNV_OFFSET := 2166136261
  const FNV_PRIME := 16777619

  /** The FNV-1 hash of a key: multiply by the prime modulo 2^32, then mix the next byte in. */
  function Fnv32(key: bytes): (h: nat)
    ensures h < UINT32
  {
    if key == [] then FNV_OFFSET
    else
      var n := |key| - 1;
      var m := (Fnv32(key[..n]) * FNV_PRIME) % UINT32;
      Pow2Of32();
      XorBound(m, key[n], 32);
      Xor(m, key[n])
  }

  method ComputeFnv32(key: bytes) returns (hash: nat)
    ensures hash == Fnv32(key)
  {
    hash := FNV_OFFSET;
    for i := 0 to |key|
      invariant hash == Fnv32(key[..i])
    {
      assert key[..i + 1][..i] == key[..i];
      hash := (hash * FNV_PRIME) % UINT32;
      hash := Xor(hash, key[i]);
    }
    assert key[..|key|] == key;
  }

  /** The published FNV-1 hashes of the empty text, "a" and "ab". */
  lemma {:induction false} KnownHashes(key: bytes)
    ensures key == [] ==> Fnv32(key) == 0x811c_9dc5
    ensures key == [97] ==> Fnv32(key) == 0x050c_5d7e
    ensures key == [97, 98] ==> Fnv32(key) == 0x7077_2d38
  {
    if key == [97] { HashOfA(key); }
    if key == [97, 98] {
      HashOfA(key[..1]);
      FnvMore(key, 1, 84696446);
      MixedIn();
      Products();
    }
  }

  lemma {:induction false} HashOfA(key: bytes)
    requires key == [97]
    ensures Fnv32(key) == 84696446
  {
    FnvMore(key, 0, FNV_OFFSET);
    MixedIn();
    Products();
  }

  lemma {:induction false} FnvMore(key: bytes, i: nat, h: nat)
    requires i + 1 == |key| && Fnv32(key[..i]) == h
    ensures Fnv32(key) == Xor((h * FNV_PRIME) % UINT32, key[i])
  {
  }

  lemma {:induction false} Products()
    ensures (FNV_OFFSET * FNV_PRIME) % UINT32 == 84696351 && (84696446 * FNV_PRIME) % UINT32 == 1886858586
  {
  }

  /** The two bytes mixed in, digit by digit. */
  lemma {:induction false} MixedIn()
    ensures Xor(84696351, 97) == 84696446 && Xor(1886858586, 98) == 1886858552
  {
    XorZero(661690);
    XorDigit(661690, 0, 661690, 0, 1);
    XorDigit(1323380, 1, 1323381, 0, 1);
    XorDigit(2646760, 3, 2646763, 1, 0);
    XorDigit(5293521, 6, 5293527, 1, 0);
    XorDigit(10587043, 12, 10587055, 1, 0);
    XorDigit(21174087, 24, 21174111, 1, 0);
    XorDigit(42348175, 48, 42348223, 1, 1);
    XorZero(14741082);
    XorDigit(14741082, 0, 14741082, 1, 1);
    XorDigit(29482165, 1, 29482164, 0, 1);
    XorDigit(58964330, 3, 58964329, 1, 0);
    XorDigit(117928661, 6, 117928659, 1, 0);
    XorDigit(235857323, 12, 235857319, 0, 0);
    XorDigit(471714646, 24, 471714638, 1, 1);
    XorDigit(943429293, 49, 943429276, 0, 0);
  }

  function Spread(key: bytes, size: nat): nat
    requires size >= 1
  {
    if size == 1 then 0 else And(size - 1, Fnv32(key))
  }

  ghost predicate IsPow2(size: nat) {
    exists k :: size == Pow2(k)
  }

  /** With a power of two as table size the mask is the remainder of the hash, hence a shard index. */
  lemma SpreadIsModulo(key: bytes, size: nat)
    requires size >= 1 && IsPow2(size)
    ensures Spread(key, size) == Fnv32(key) % size < size
  {
    var k :| size == Pow2(k);
    MaskIsModulo(k, Fnv32(key));
  }

  // ----- the dictionary -----

  const INT32_BOUND := 0x8000_0000

  /** An int32 sum that is off by one wrap-around at most. */
  function Wrap32(n: int): int {
    if n >= INT32_BOUND then n - UINT32 else if n < -INT32_BOUND then n + UINT32 else n
  }

  /** Each key lives in the shard `home` names and nowhere else. */
  ghost predicate Sharded<V>(table: seq<map<bytes, V>>, contents: map<bytes, V>, home: bytes -> nat) {
    && (forall i, k {:trigger k in table[i]} :: 0 <= i < |table| && k in table[i] ==> home(k) == i && k in contents)
    && (forall k :: k in contents ==> home(k) < |table| && k in table[home(k)] && table[home(k)][k] == contents[k])
  }

  lemma {:induction false} StoreKeepsSharded<V>(table: seq<map<bytes, V>>, contents: map<bytes, V>, home: bytes -> nat,
                                                key: bytes, val: V)
    requires Sharded(table, contents, home) && home(key) < |table|
    ensures key in table[home(key)] <==> key in contents
    ensures Sharded(table[home(key) := table[home(key)][key := val]], contents[key := val], home)
  {
  }

  lemma {:induction false} RemoveKeepsSharded<V>(table: seq<map<bytes, V>>, contents: map<bytes, V>, home: bytes -> nat,
                                                 key: bytes)
    requires Sharded(table, contents, home) && home(key) < |table|
    ensures Sharded(table[home(key) := table[home(key)] - {key}], contents - {key}, home)
  {
  }

  lemma StoredSize<V>(m: map<bytes, V>, key: bytes, val: V)
    ensures |m[key := val]| == |m| + if key in m then 0 else 1
  {
    assert m[key := val].Keys == m.Keys + {key};
  }

  lemma RemovedSize<V>(m: map<bytes, V>, key: bytes)
    requires key in m
    ensures |m - {key}| == |m| - 1
  {
    assert m.Keys == (m - {key}).Keys + {key};
  }

  class ConcurrentDict<V(==)> {
    var table: seq<map<bytes, V>>
    var count: int
    var shardCount: int

    /** The abstract value: one map. */
    ghost var contents: map<bytes, V>

    /** How often the int32 counter has wrapped around. */
    ghost var wraps: int
    /** The shard of each key. */
    ghost var home: bytes -> nat

    ghost predicate Placed()
      reads `table, `contents, `home, `shardCount
    {
      && |table| >= 1 && IsPow2(|table|) && Sharded(table, contents, home)
      && (forall k {:trigger Spread(k, |table|)} :: Spread(k, |table|) == home(k))
      && (shardCount == 1 || shardCount == |table|)
    }

    ghost predicate Valid()
      reads this
    {
      Placed() && count + UINT32 * wraps == |contents| && -INT32_BOUND <= count < INT32_BOUND
    }

    constructor (shardCount: int)
      requires shardCount <= UINT32
      ensures Valid() && contents == map[]
      ensures |table| == if shardCount == 1 then 1 else if shardCount <= 16 then 16 else |table|
      ensures 16 < shardCount ==> shardCount <= |table| < 2 * shardCount
    {
      var size: nat := if shardCount == 1 then 1 else 16;
      assert Pow2(0) == 1 && Pow2(4) == 16;
      if shardCount != 1 {
        size := ComputeCapacity(shardCount);
      }
      table := seq(size, _ => map[]);
      count := 0;
      this.shardCount := size;
      contents := map[];
      wraps := 0;
      home := k => Spread(k, size);
    }

    method Get(key: bytes) returns (val: map<bytes, V>, ok: bool)
      requires Valid()
      ensures ok <==> key in contents
      ensures val == if ok then map[key := contents[key]] else map[]
    {
      SpreadIsModulo(key, |table|);
      var s := table[Spread(key, |table|)];
      ok := key in s;
      val := if ok then map[key := s[key]] else map[];
    }

    method Len() returns (n: int)
      requires Valid()
      ensures -INT32_BOUND <= n < INT32_BOUND && (n - |contents|) % UINT32 == 0
      ensures |contents| < INT32_BOUND ==> n == |contents|
    {
      n := count;
    }

    /** Put one entry into its shard. */
    method Place(key: bytes, val: V)
      requires Placed()
      modifies `table, `contents
      ensures Placed() && contents == old(contents)[key := val] && |table| == old(|table|)
    {
      SpreadIsModulo(key, |table|);
      var i := Spread(key, |table|);
      StoreKeepsSharded(table, contents, home, key, val);
      table := table[i := table[i][key := val]];
      contents := contents[key := val];
    }

    /** Take one entry out of its shard. */
    method Displace(key: bytes)
      requires Placed()
      modifies `table, `contents
      ensures Placed() && contents == old(contents) - {key} && |table| == old(|table|)
    {
      SpreadIsModulo(key, |table|);
      var i := Spread(key, |table|);
      RemoveKeepsSharded(table, contents, home, key);
      table := table[i := table[i] - {key}];
      contents := contents - {key};
    }

    method AddCount(d: int)
      requires -INT32_BOUND <= count < INT32_BOUND && -1 <= d <= 1
      modifies `count, `wraps
      ensures count + UINT32 * wraps == old(count + UINT32 * wraps) + d && -INT32_BOUND <= count < INT32_BOUND
    {
      ghost var exact := count + d;
      count := Wrap32(count + d);
      wraps := wraps + (if count < exact then 1 else if count > exact then -1 else 0);
    }

    method HasKey(key: bytes) returns (ok: bool)
      requires Placed()
      ensures ok <==> key in contents
    {
      SpreadIsModulo(key, |table|);
      ok := key in table[Spread(key, |table|)];
    }

    method Put(key: bytes, val: V) returns (result: int)
      requires Valid()
      modifies this
      ensures Valid() && contents == old(contents)[key := val]
      ensures result == if key in old(contents) then 0 else 1
    {
      StoredSize(contents, key, val);
      var ok := HasKey(key);
      if ok {
        Place(key, val);
        return 0;
      }
      AddCount(1);
      Place(key, val);
      return 1;
    }

    method PutIfAbsent(key: bytes, val: V) returns (result: int)
      requires Valid()
      modifies this
      ensures Valid() && contents == if key in old(contents) then old(contents) else old(contents)[key := val]
      ensures result == if key in old(contents) then 0 else 1
    {
      var ok := HasKey(key);
      if ok {
        return 0;
      }
      StoredSize(contents, key, val);
      Place(key, val);
      AddCount(1);
      return 1;
    }

    method PutIfExists(key: bytes, val: V) returns (result: int)
      requires Valid()
      modifies this
      ensures Valid() && contents == if key in old(contents) then old(contents)[key := val] else old(contents)
      ensures result == if key in old(contents) then 1 else 0
    {
      var ok := HasKey(key);
      if ok {
        StoredSize(contents, key, val);
        Place(key, val);
        return 1;
      }
      return 0;
    }

    method Remove(key: bytes) returns (result: int)
      requires Valid()
      modifies this
      ensures Valid() && contents == old(contents) - {key}
      ensures result == if key in old(contents) then 1 else 0
    {
      var ok := HasKey(key);
      if !ok {
        assert contents - {key} == contents;
        return 0;
      }
      RemovedSize(contents, key);
      Displace(key);
      AddCount(-1);
      assert Placed();
      return 1;
    }

    /** Clear replaces the table by an empty one. */
    method Clear()
      requires Valid()
      modifies this
      ensures Valid() && contents == map[]
    {
      var size := |table|;
      table := seq(size, _ => map[]);
      count, wraps := 0, 0;
      contents := map[];
    }

    /** Delete each key in turn, counting those found. */
    method Removes(keys: seq<bytes>) returns (deleted: nat)
      requires Valid()
      modifies this
      ensures Valid() && contents == old(contents) - Elements(keys)
      ensures deleted == |Elements(keys) * old(contents).Keys|
    {
      deleted := 0;
      ghost var c := contents;
      for i := 0 to |keys|
        invariant Valid() && contents == c - Elements(keys[..i])
        invariant deleted == |Elements(keys[..i]) * c.Keys|
      {
        RemovesStep(c, keys, i);
        var r := Remove(keys[i]);
        deleted := deleted + r;
      }
      assert keys[..|keys|] == keys;
    }
  }

  lemma {:induction false} RemovesStep<V>(c: map<bytes, V>, keys: seq<bytes>, i: nat)
    requires i < |keys|
    ensures var s, s' := Elements(keys[..i]), Elements(keys[..i + 1]);
            && (c - s) - {keys[i]} == c - s'
            && |s' * c.Keys| == |s * c.Keys| + (if keys[i] in c - s then 1 else 0)
  {
    assert keys[..i + 1] == keys[..i] + [keys[i]];
    ElementsMore(keys[..i], keys[i]);
    OneMoreGone(c, Elements(keys[..i]), keys[i]);
  }

  lemma {:induction false} OneMoreGone<V>(c: map<bytes, V>, s: set<bytes>, k: bytes)
    ensures (c - s) - {k} == c - (s + {k})
    ensures |(s + {k}) * c.Keys| == |s * c.Keys| + (if k in c - s then 1 else 0)
  {
    assert (s + {k}) * c.Keys == s * c.Keys + (if k in c - s then {k} else {});
  }
}
