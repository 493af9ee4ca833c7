/** The byte-level integer set of datastruct/set/int_set.go. */
module IntSet {
  import opened Bytes
  import opened Collections
  import opened Decimal
  import Bits

  // ----- little-endian two's complement -----

  function Pow256(w: nat): (p: nat)
    ensures p > 0
  {
    if w == 0 then 1 else 256 * Pow256(w - 1)
  }

  function Unsigned(s: bytes): (u: nat)
    ensures u < Pow256(|s|)
  {
    if s == [] then 0 else s[0] + 256 * Unsigned(s[1..])
  }

  /** Uint16, Uint32 or Uint64 followed by the conversion to the signed type of that width. */
  function Signed(s: bytes): (v: int) {
    var u, m := Unsigned(s), Pow256(|s|);
    if 2 * u >= m then u - m else u
  }

  function PutUnsigned(u: nat, w: nat): (s: bytes)
    ensures |s| == w
  {
    if w == 0 then [] else [u % 256] + PutUnsigned(u / 256, w - 1)
  }

  /** The low `w` bytes of a two's-complement number. */
  function Put(v: int, w: nat): (s: bytes)
    ensures |s| == w
  {
    PutUnsigned(v % Pow256(w), w)
  }

  /** The low byte comes first. */
  lemma {:induction false} LittleEndian(u: nat, w: nat, i: nat)
    requires i < w
    ensures PutUnsigned(u, w)[i] == (u / Pow256(i)) % 256
  {
    if i > 0 {
      LittleEndian(u / 256, w - 1, i - 1);
      QuotientOfQuotient(u, Pow256(i - 1));
    }
  }

  lemma {:induction false} QuotientOfQuotient(u: nat, p: nat)
    requires p > 0
    ensures (u / 256) / p == u / (256 * p)
  {
    var q := u / 256;
    var k := q / p;
    var r := 256 * (q % p) + u % 256;
    assert u == 256 * (p * k + q % p) + u % 256;
    assert 256 * (p * k) == k * (256 * p);
    Bits.ModuloIs(u, 256 * p, k, r);
  }

  /** -2 in two bytes, and 16909060 in four. */
  lemma {:induction false} BytesOfNumbers()
    ensures Put(-2, 2) == [254, 255] && Put(16909060, 4) == [4, 3, 2, 1]
  {
    assert Pow256(1) == 256 && Pow256(2) == 65536 && Pow256(3) == 16777216 && Pow256(4) == 4294967296;
    assert PutUnsigned(255, 1) == [255] && PutUnsigned(1, 1) == [1];
    assert PutUnsigned(258, 2) == [2, 1] && PutUnsigned(66051, 3) == [3, 2, 1];
  }

  predicate Fits(v: int, w: nat) {
    0 <= 2 * v + Pow256(w) < 2 * Pow256(w)
  }

  lemma {:induction false} UnsignedAfterPut(u: nat, w: nat)
    requires u < Pow256(w)
    ensures Unsigned(PutUnsigned(u, w)) == u
  {
    if w > 0 {
      UnsignedAfterPut(u / 256, w - 1);
      assert PutUnsigned(u, w)[1..] == PutUnsigned(u / 256, w - 1);
    }
  }

  lemma {:induction false} ModuloOf(v: int, m: nat)
    requires m > 0 && 0 <= 2 * v + m < 2 * m
    ensures v % m == if v < 0 then v + m else v
  {
    if v < 0 {
      assert v % m == (v + m) % m by { ShiftModulo(v, m); }
    }
  }

  lemma {:induction false} ShiftModulo(v: int, m: nat)
    requires m > 0
    ensures (v + m) % m == v % m
  {
    var q, r := v / m, v % m;
    assert v + m == (q + 1) * m + r;
    SameRemainder(v + m, m, q + 1, r);
  }

  lemma {:induction false} SameRemainder(x: int, m: nat, q: int, r: nat)
    requires m > 0 && r < m && x == q * m + r
    ensures x % m == r
  {
    var k := x / m - q;
    assert k * m == r - x % m;
    Bits.Multiple(k, m);
  }

  /** Writing a number in `w` bytes and reading it back gives the number exactly when it fits. */
  lemma {:induction false} SignedAfterPut(v: int, w: nat)
    requires w > 0
    ensures Signed(Put(v, w)) == v <==> Fits(v, w)
  {
    UnsignedAfterPut(v % Pow256(w), w);
    if Fits(v, w) { ModuloOf(v, Pow256(w)); }
  }

  // ----- slots -----

  /** Where slot `i` begins: at `i * w`. */
  function Start(i: nat, w: nat): (o: nat) {
    if i == 0 then 0 else Start(i - 1, w) + w
  }

  lemma {:induction false} StartIs(i: nat, w: nat)
    ensures Start(i, w) == i * w
  {
    if i > 0 { StartIs(i - 1, w); }
  }

  lemma {:induction false} OffsetIs(i: nat, w: nat)
    requires i < 0x2000_0000 && w in {2, 4, 8}
    ensures (i * w) % 0x1_0000_0000 == Start(i, w)
  {
    StartIs(i, w);
    assert 0 <= i * w < 0x1_0000_0000;
  }

  lemma {:induction false} StartBefore(i: nat, n: nat, w: nat)
    requires i < n
    ensures Start(i, w) + w <= Start(n, w)
  {
    if i + 1 < n { StartBefore(i, n - 1, w); }
  }

  /** The bytes of `n` slots of `w` bytes each. */
  function Chunks(d: bytes, w: nat, n: nat): (r: seq<bytes>)
    requires |d| == Start(n, w)
    ensures |r| == n
    decreases n
  {
    if n == 0 then [] else [d[..w]] + Chunks(d[w..], w, n - 1)
  }

  function Numbers(chunks: seq<bytes>): (r: seq<int>)
    ensures |r| == |chunks| && forall i :: 0 <= i < |r| ==> r[i] == Signed(chunks[i])
  {
    seq(|chunks|, i requires 0 <= i < |chunks| => Signed(chunks[i]))
  }

  lemma {:induction false} ChunkAt(d: bytes, w: nat, n: nat, i: nat)
    requires |d| == Start(n, w) && i < n
    ensures Start(i, w) + w <= |d| && Chunks(d, w, n)[i] == d[Start(i, w)..Start(i, w) + w]
    decreases n
  {
    if i > 0 {
      ChunkAt(d[w..], w, n - 1, i - 1);
      SliceOfRest(d, w, Start(i - 1, w), Start(i - 1, w) + w);
    }
  }

  lemma {:induction false} SliceOfRest<T>(d: seq<T>, w: nat, x: nat, y: nat)
    requires x <= y && w + y <= |d|
    ensures d[w..][x..y] == d[w + x..w + y]
  {
  }

  lemma {:induction false} ChunksCons(h: bytes, t: bytes, w: nat, n: nat)
    requires |h| == w && |t| == Start(n, w)
    ensures |h + t| == Start(n + 1, w) && Chunks(h + t, w, n + 1) == [h] + Chunks(t, w, n)
  {
    assert (h + t)[..w] == h && (h + t)[w..] == t;
  }

  lemma {:induction false} SpliceBehind<T>(h: seq<T>, t: seq<T>, e: seq<T>, o: nat)
    requires o <= |t|
    ensures var d, p := h + t, |h| + o; d[..p] + e + d[p..] == h + (t[..o] + e + t[o..])
  {
  }

  lemma {:induction false} CutBehind<T>(h: seq<T>, t: seq<T>, o: nat, w: nat)
    requires o + w <= |t|
    ensures var d, p := h + t, |h| + o; d[..p] + d[p + w..] == h + (t[..o] + t[o + w..])
  {
  }

  /** Bytes put in at the beginning of slot `p` become a slot, and the later slots move up. */
  lemma {:induction false} InsertedChunk(d: bytes, e: bytes, w: nat, n: nat, p: nat)
    requires |d| == Start(n, w) && |e| == w && p <= n
    ensures var o := Start(p, w);
            && o <= |d| && |d[..o] + e + d[o..]| == Start(n + 1, w)
            && Chunks(d[..o] + e + d[o..], w, n + 1) == Chunks(d, w, n)[..p] + [e] + Chunks(d, w, n)[p..]
    decreases n
  {
    if p == 0 {
      assert d[..0] + e + d[0..] == e + d;
      ChunksCons(e, d, w, n);
    } else {
      var h, t, o := d[..w], d[w..], Start(p - 1, w);
      assert d == h + t;
      InsertedChunk(t, e, w, n - 1, p - 1);
      SpliceBehind(h, t, e, o);
      ChunksCons(h, t[..o] + e + t[o..], w, n);
      SpliceBehind([h], Chunks(t, w, n - 1), [e], p - 1);
    }
  }

  /** Taking the bytes of slot `p` out moves the later slots down. */
  lemma {:induction false} RemovedChunk(d: bytes, w: nat, n: nat, p: nat)
    requires |d| == Start(n, w) && p < n
    ensures var o := Start(p, w);
            && o + w <= |d| && |d[..o] + d[o + w..]| == Start(n - 1, w)
            && Chunks(d[..o] + d[o + w..], w, n - 1) == Chunks(d, w, n)[..p] + Chunks(d, w, n)[p + 1..]
    decreases n
  {
    var h, t := d[..w], d[w..];
    assert d == h + t;
    ChunksCons(h, t, w, n - 1);
    if p == 0 {
      assert d[..0] + d[w..] == t;
    } else {
      var o := Start(p - 1, w);
      RemovedChunk(t, w, n - 1, p - 1);
      CutBehind(h, t, o, w);
      ChunksCons(h, t[..o] + t[o + w..], w, n - 2);
      CutBehind([h], Chunks(t, w, n - 1), p - 1, 1);
    }
  }

  // ----- sorted numbers -----

  predicate Ascending(q: seq<int>) {
    forall i, j :: 0 <= i < j < |q| ==> q[i] < q[j]
  }

  lemma {:induction false} AscendingUnique(q: seq<int>, r: seq<int>)
    requires Ascending(q) && Ascending(r) && Elements(q) == Elements(r)
    ensures q == r
    decreases |q|
  {
    if q == [] {
      assert forall i :: 0 <= i < |r| ==> r[i] in Elements(q);
    } else {
      var n := |q| - 1;
      assert q[n] in Elements(r);
      var m := |r| - 1;
      assert r[m] in Elements(q);
      assert q[n] == r[m];
      DropLast(q);
      DropLast(r);
      AscendingUnique(q[..n], r[..m]);
      assert q == q[..n] + [q[n]] && r == r[..m] + [r[m]];
    }
  }

  lemma {:induction false} DropLast(q: seq<int>)
    requires q != [] && Ascending(q)
    ensures Elements(q[..|q| - 1]) == Elements(q) - {q[|q| - 1]}
  {
    var n := |q| - 1;
    assert q == q[..n] + [q[n]];
    assert q[n] !in q[..n];
  }

  lemma {:induction false} AscendingCount(q: seq<int>)
    requires Ascending(q)
    ensures |Elements(q)| == |q|
  {
    if q != [] {
      var n := |q| - 1;
      DropLast(q);
      AscendingCount(q[..n]);
      assert q[n] in Elements(q);
    }
  }

  lemma {:induction false} InsertedInOrder(q: seq<int>, p: nat, v: int)
    requires Ascending(q) && p <= |q| && (forall i :: 0 <= i < p ==> q[i] < v) && (forall i :: p <= i < |q| ==> v < q[i])
    ensures Ascending(q[..p] + [v] + q[p..]) && Elements(q[..p] + [v] + q[p..]) == Elements(q) + {v} && v !in q
  {
    assert q == q[..p] + q[p..];
  }

  lemma {:induction false} RemovedInOrder(q: seq<int>, p: nat)
    requires Ascending(q) && p < |q|
    ensures Ascending(q[..p] + q[p + 1..]) && Elements(q[..p] + q[p + 1..]) == Elements(q) - {q[p]}
  {
    assert q == q[..p] + [q[p]] + q[p + 1..];
  }

  lemma {:induction false} NextInOrder(q: seq<int>, i: nat, r: seq<int>)
    requires Ascending(q) && i < |q| && Ascending(r) && Elements(r) == Elements(q[..i]) + {q[i]}
    ensures r == q[..i + 1]
  {
    assert q[..i + 1] == q[..i] + [q[i]];
    AscendingUnique(r, q[..i + 1]);
  }

  // ----- encodings -----

  const MAX_LENGTH := 0x2000_0000

  function RequiredEncoding(v: int): nat {
    if v < -0x8000 || v > 0x7fff then
      if v < -0x8000_0000 || v > 0x7fff_ffff then 8 else 4
    else 2
  }

  lemma Pow256Values()
    ensures Pow256(2) == 0x1_0000 && Pow256(4) == 0x1_0000_0000 && Pow256(8) == 0x1_0000_0000_0000_0000
  {
    assert Pow256(1) == 256;
    assert Pow256(3) == 0x100_0000;
    assert Pow256(5) == 0x100_0000_0000;
    assert Pow256(7) == 0x100_0000_0000_0000;
  }

  /** The encoding asked for is the narrowest that holds the number. */
  lemma {:induction false} RequiredIsLeast(v: int, w: nat)
    requires MIN_INT64 <= v <= MAX_INT64 && w in {2, 4, 8}
    ensures Fits(v, w) <==> RequiredEncoding(v) <= w
  {
    Pow256Values();
  }

  lemma {:induction false} SignedFits(s: bytes)
    ensures Fits(Signed(s), |s|)
  {
  }

  function Zeros(n: nat): (s: bytes)
    ensures |s| == n
  {
    seq(n, _ => 0)
  }

  function Decoded(contents: bytes, w: nat, n: nat): (r: seq<int>)
    requires Start(n, w) <= |contents|
    ensures |r| == n
  {
    Numbers(Chunks(contents[..Start(n, w)], w, n))
  }

  lemma {:induction false} ElementAt(contents: bytes, w: nat, n: nat, i: nat)
    requires Start(n, w) <= |contents| && i < n
    ensures Start(i, w) + w <= |contents|
    ensures Decoded(contents, w, n)[i] == Signed(contents[Start(i, w)..Start(i, w) + w])
  {
    var d := contents[..Start(n, w)];
    ChunkAt(d, w, n, i);
    assert d[Start(i, w)..Start(i, w) + w] == contents[Start(i, w)..Start(i, w) + w];
  }

  lemma {:induction false} ElementsInserted(c: bytes, c': bytes, w: nat, n: nat, p: nat, v: int)
    requires w > 0 && Fits(v, w) && p <= n && Start(p, w) <= Start(n, w) <= |c| && Start(n + 1, w) <= |c'|
    requires c'[..Start(n + 1, w)] == c[..Start(p, w)] + Put(v, w) + c[Start(p, w)..Start(n, w)]
    ensures var q := Decoded(c, w, n); Decoded(c', w, n + 1) == q[..p] + [v] + q[p..]
  {
    var d, e := c[..Start(n, w)], Put(v, w);
    InsertedChunk(d, e, w, n, p);
    assert d[..Start(p, w)] == c[..Start(p, w)] && d[Start(p, w)..] == c[Start(p, w)..Start(n, w)];
    SignedAfterPut(v, w);
    NumbersOf(Chunks(d, w, n), p, e);
  }

  /** Moving up what lies behind `o` when something does, then writing `e` there: the slots then read as if `e` had been put in. */
  lemma {:induction false} Written(c: bytes, g: bytes, s: bytes, e: bytes, o: nat, end: nat)
    requires o <= end <= |c| && |g| == |c| + |e| && g[..|c|] == c
    requires s == if o < end then g[..o + |e|] + g[o..|c|] else g
    requires o < end ==> o + |e| <= end
    ensures |s| == |g| && (s[..o] + e + s[o + |e|..])[..end + |e|] == c[..o] + e + c[o..end]
  {
    var w := s[..o] + e + s[o + |e|..];
    assert s[..o] == c[..o] by { assert forall i :: 0 <= i < o ==> s[i] == g[i] == g[..|c|][i]; }
    if o < end {
      assert s[o + |e|..] == g[o..|c|] == c[o..] by { assert g[o..|c|] == g[..|c|][o..]; }
    }
  }

  lemma {:induction false} NumbersOf(chunks: seq<bytes>, p: nat, e: bytes)
    requires p <= |chunks|
    ensures Numbers(chunks[..p] + [e] + chunks[p..]) == Numbers(chunks)[..p] + [Signed(e)] + Numbers(chunks)[p..]
  {
  }

  lemma {:induction false} InsertAgrees(c: bytes, c': bytes, w: nat, n: nat, p: nat, v: int, q: seq<int>)
    requires w > 0 && Fits(v, w) && p <= n && Start(p, w) <= Start(n, w) <= |c| && Start(n + 1, w) <= |c'|
    requires c'[..Start(n + 1, w)] == c[..Start(p, w)] + Put(v, w) + c[Start(p, w)..Start(n, w)]
    requires q == Decoded(c, w, n) && Ascending(q)
    requires (forall i :: 0 <= i < p ==> q[i] < v) && (forall i :: p <= i < n ==> v < q[i])
    ensures Ascending(Decoded(c', w, n + 1)) && Elements(Decoded(c', w, n + 1)) == Elements(q) + {v}
  {
    InsertedInOrder(q, p, v);
    ElementsInserted(c, c', w, n, p, v);
  }

  lemma {:induction false} RemoveAgrees(c: bytes, c': bytes, w: nat, n: nat, p: nat)
    requires p < n && Start(p, w) + w <= Start(n, w) <= |c| && Start(n - 1, w) <= |c'|
    requires c'[..Start(n - 1, w)] == c[..Start(p, w)] + c[Start(p, w) + w..Start(n, w)]
    requires Ascending(Decoded(c, w, n))
    ensures Ascending(Decoded(c', w, n - 1)) && Elements(Decoded(c', w, n - 1)) == Elements(Decoded(c, w, n)) - {Decoded(c, w, n)[p]}
  {
    RemovedInOrder(Decoded(c, w, n), p);
    ElementsRemoved(c, c', w, n, p);
  }

  lemma {:induction false} ElementsRemoved(c: bytes, c': bytes, w: nat, n: nat, p: nat)
    requires p < n && Start(p, w) + w <= Start(n, w) <= |c| && Start(n - 1, w) <= |c'|
    requires c'[..Start(n - 1, w)] == c[..Start(p, w)] + c[Start(p, w) + w..Start(n, w)]
    ensures var q := Decoded(c, w, n); Decoded(c', w, n - 1) == q[..p] + q[p + 1..]
  {
    var d := c[..Start(n, w)];
    RemovedChunk(d, w, n, p);
    assert d[..Start(p, w)] == c[..Start(p, w)] && d[Start(p, w) + w..] == c[Start(p, w) + w..Start(n, w)];
    var chunks := Chunks(d, w, n);
    assert Numbers(chunks[..p] + chunks[p + 1..]) == Numbers(chunks)[..p] + Numbers(chunks)[p + 1..];
  }

  class IntSet {
    var encoding: nat
    var length: nat
    var contents: bytes
    /** What the backing array holds behind the slice. */
    var spare: bytes

    ghost predicate Valid()
      reads this
    {
      && encoding in {2, 4, 8} && length <= MAX_LENGTH && Start(length, encoding) <= |contents|
      && Ascending(Decoded(contents, encoding, length))
    }

    ghost function Values(): seq<int>
      reads this
      requires Valid()
    {
      Decoded(contents, encoding, length)
    }

    ghost function Model(): set<int>
      reads this
      requires Valid()
    {
      Elements(Values())
    }

    constructor ()
      ensures Valid() && Values() == [] && encoding == 2
    {
      encoding := 2;
      length := 0;
      contents := [];
      spare := [];
    }

    method Len() returns (n: nat)
      requires Valid()
      ensures n == |Model()|
    {
      AscendingCount(Values());
      return length;
    }

    /** Read one slot; the offset is computed in 32 bits. */
    method GetValueAt(index: nat) returns (v: int)
      requires Valid() && index < length
      ensures v == Values()[index]
    {
      var offset := (index * encoding) % 0x1_0000_0000;
      OffsetIs(index, encoding);
      ElementAt(contents, encoding, length, index);
      v := Signed(contents[offset..offset + encoding]);
    }

    /** Binary search: the index of the value, or minus one more than the place where it belongs. */
    method FindPosition(value: int) returns (pos: int)
      requires Valid()
      ensures pos >= 0 ==> pos < length && Values()[pos] == value
      ensures pos < 0 ==>
                && 0 <= -(pos + 1) <= length
                && (forall i :: 0 <= i < -(pos + 1) ==> Values()[i] < value)
                && (forall i :: -(pos + 1) <= i < length ==> value < Values()[i])
    {
      ghost var q := Values();
      var low, high := 0, length - 1;
      while low <= high
        invariant 0 <= low <= high + 1 <= length
        invariant forall i :: 0 <= i < low ==> q[i] < value
        invariant forall i :: high < i < length ==> value < q[i]
      {
        var mid := (low + high) / 2;
        var midValue := GetValueAt(mid);
        if midValue < value {
          low := mid + 1;
        } else if midValue > value {
          high := mid - 1;
        } else {
          return mid;
        }
      }
      return -(low + 1);
    }

    /** Make room for one more element: reallocate with zeros, or let the slice run into the spare bytes. */
    method Grow()
      modifies this`contents, this`spare
      ensures |contents| == |old(contents)| + encoding && contents[..|old(contents)|] == old(contents)
    {
      var newLen := |contents| + encoding;
      if |contents| + |spare| < newLen {
        contents, spare := contents + Zeros(encoding), Zeros(newLen);
      } else {
        contents, spare := contents + spare[..encoding], spare[encoding..];
      }
    }

    /** Move the slots from `pos` on up by one and write the value there. */
    method WriteAt(pos: nat, value: int)
      requires encoding > 0 && pos <= length && Start(length, encoding) <= |contents|
      modifies this`contents, this`spare
      ensures Start(pos, encoding) <= Start(length, encoding) && |contents| == |old(contents)| + encoding
      ensures contents[..Start(length, encoding) + encoding] ==
              old(contents)[..Start(pos, encoding)] + Put(value, encoding) + old(contents)[Start(pos, encoding)..Start(length, encoding)]
    {
      ghost var c := contents;
      var oldLen := |contents|;
      Grow();
      ghost var g := contents;
      var offset := pos * encoding;
      StartIs(pos, encoding);
      if pos < length {
        StartBefore(pos, length, encoding);
        contents := contents[..offset + encoding] + contents[offset..oldLen];
      }
      Written(c, g, contents, Put(value, encoding), offset, Start(length, encoding));
      contents := contents[..offset] + Put(value, encoding) + contents[offset + encoding..];
    }

    method InsertAt(pos: nat, value: int)
      requires Valid() && pos <= length < MAX_LENGTH && Fits(value, encoding)
      requires (forall i :: 0 <= i < pos ==> Values()[i] < value) && (forall i :: pos <= i < length ==> value < Values()[i])
      modifies this
      ensures Valid() && encoding == old(encoding) && length == old(length) + 1
      ensures Model() == old(Model()) + {value}
    {
      ghost var c, q := contents, Values();
      WriteAt(pos, value);
      InsertAgrees(c, contents, encoding, length, pos, value, q);
      length := length + 1;
    }

    method RemoveAt(pos: int)
      requires Valid() && 0 <= pos < length
      modifies this
      ensures Valid() && encoding == old(encoding) && length == old(length) - 1
      ensures Model() == old(Model()) - {old(Values())[pos]}
    {
      ghost var c := contents;
      var offset, endOffset := pos * encoding, length * encoding;
      StartIs(pos, encoding);
      StartIs(length, encoding);
      StartBefore(pos, length, encoding);
      var moved := contents[..offset] + contents[offset + encoding..endOffset] + contents[endOffset - encoding..];
      contents, spare := moved[..endOffset - encoding], moved[endOffset - encoding..] + spare;
      RemoveAgrees(c, contents, encoding, length, pos);
      length := length - 1;
    }

    method ToSlice() returns (r: seq<int>)
      requires Valid()
      ensures r == Values()
    {
      r := [];
      for i := 0 to length
        invariant r == Values()[..i]
      {
        var v := GetValueAt(i);
        r := r + [v];
      }
    }

    /** The set gains the value; the result says whether it was new. */
    method Add(value: int) returns (added: bool)
      requires Valid() && length < MAX_LENGTH && MIN_INT64 <= value <= MAX_INT64
      modifies this
      ensures Valid() && Model() == old(Model()) + {value} && added == (value !in old(Model()))
      ensures length == old(length) + if added then 1 else 0
      ensures encoding == Max(old(encoding), RequiredEncoding(value))
      decreases 8 - encoding, 1
    {
      var required := RequiredEncoding(value);
      if required > encoding {
        UpgradeEncoding(required);
      }
      RequiredIsLeast(value, encoding);
      var pos := FindPosition(value);
      if pos >= 0 {
        assert Model() + {value} == Model();
        return false;
      }
      InsertAt(-(pos + 1), value);
      return true;
    }

    /** Re-add everything in the wider encoding; the slice starts out as long as it will need to be. */
    method UpgradeEncoding(newEncoding: nat)
      requires Valid() && newEncoding in {2, 4, 8}
      modifies this
      ensures Valid() && Values() == old(Values()) && length == old(length)
      ensures encoding == Max(old(encoding), newEncoding)
      decreases 8 - encoding, 0
    {
      if newEncoding <= encoding {
        return;
      }
      var oldValues := ToSlice();
      ghost var oldEncoding := encoding;
      ValuesFit();
      encoding, length := newEncoding, 0;
      contents, spare := Zeros(newEncoding * |oldValues|), [];
      assert Values() == [];
      for i := 0 to |oldValues|
        invariant Valid() && encoding == newEncoding && length == i
        invariant Values() == oldValues[..i]
      {
        var v := oldValues[i];
        var _ := Add(v);
        NextInOrder(oldValues, i, Values());
      }
      assert oldValues[..|oldValues|] == oldValues;
    }

    method Contains(value: int) returns (found: bool)
      requires Valid()
      ensures found == (value in Model())
    {
      var pos := FindPosition(value);
      return pos >= 0;
    }

    method Remove(value: int) returns (removed: bool)
      requires Valid()
      modifies this
      ensures Valid() && Model() == old(Model()) - {value} && removed == (value in old(Model()))
      ensures encoding == old(encoding) && length <= old(length)
    {
      var pos := FindPosition(value);
      if pos < 0 {
        assert Model() - {value} == Model();
        return false;
      }
      RemoveAt(pos);
      return true;
    }

    lemma ValuesFit()
      requires Valid()
      ensures forall i :: 0 <= i < length ==>
                MIN_INT64 <= Values()[i] <= MAX_INT64 && RequiredEncoding(Values()[i]) <= encoding
    {
      forall i | 0 <= i < length ensures MIN_INT64 <= Values()[i] <= MAX_INT64 && RequiredEncoding(Values()[i]) <= encoding {
        ElementAt(contents, encoding, length, i);
        SignedFits(contents[Start(i, encoding)..Start(i, encoding) + encoding]);
        Pow256Values();
        RequiredIsLeast(Values()[i], encoding);
      }
    }
  }

  function Max(a: nat, b: nat): nat {
    if a >= b then a else b
  }

  // ----- whole runs -----

  datatype Op = AddOp(value: int) | RemoveOp(value: int)

  /** The same operations on a mathematical set. */
  function SetAfter(ops: seq<Op>): set<int> {
    if ops == [] then {} else
      var before, op := SetAfter(ops[..|ops| - 1]), ops[|ops| - 1];
      if op.AddOp? then before + {op.value} else before - {op.value}
  }

  predicate Answer(ops: seq<Op>, i: nat)
    requires i < |ops|
  {
    (ops[i].value in SetAfter(ops[..i])) == ops[i].RemoveOp?
  }

  lemma {:induction false} AfterOneMore(ops: seq<Op>, i: nat)
    requires i < |ops|
    ensures SetAfter(ops[..i + 1]) ==
              if ops[i].AddOp? then SetAfter(ops[..i]) + {ops[i].value} else SetAfter(ops[..i]) - {ops[i].value}
  {
    assert ops[..i + 1][..i] == ops[..i];
  }

  method RunOp(s: IntSet, op: Op) returns (answer: bool)
    requires s.Valid() && s.length < MAX_LENGTH && MIN_INT64 <= op.value <= MAX_INT64
    modifies s
    ensures s.Valid() && s.length <= old(s.length) + 1
    ensures s.Model() == if op.AddOp? then old(s.Model()) + {op.value} else old(s.Model()) - {op.value}
    ensures answer == ((op.value in old(s.Model())) == op.RemoveOp?)
  {
    if op.AddOp? {
      answer := s.Add(op.value);
    } else {
      answer := s.Remove(op.value);
    }
  }

  /** Any operations on a new set: every answer is that of a mathematical set, and its numbers come out in order. */
  method RunOps(ops: seq<Op>) returns (answers: seq<bool>, values: seq<int>)
    requires |ops| <= MAX_LENGTH && forall i :: 0 <= i < |ops| ==> MIN_INT64 <= ops[i].value <= MAX_INT64
    ensures |answers| == |ops| && forall i :: 0 <= i < |ops| ==> answers[i] == Answer(ops, i)
    ensures Ascending(values) && Elements(values) == SetAfter(ops)
  {
    var s := new IntSet();
    answers := [];
    for i := 0 to |ops|
      invariant s.Valid() && s.Model() == SetAfter(ops[..i]) && s.length <= i && |answers| == i && fresh(s)
      invariant forall j :: 0 <= j < i ==> answers[j] == Answer(ops, j)
    {
      AfterOneMore(ops, i);
      var answer := RunOp(s, ops[i]);
      answers := answers + [answer];
    }
    assert ops[..|ops|] == ops;
    values := s.ToSlice();
  }
}
