/** Go strings and byte slices as sequences of bytes, with Go's string order. */
module Bytes {
  type byte = x: int | 0 <= x < 256
  type bytes = seq<byte>

  /** A text of ASCII characters as bytes. */
  function Ascii(s: string): (r: bytes)
    requires forall i :: 0 <= i < |s| ==> s[i] < 128 as char
    ensures |r| == |s| && forall i :: 0 <= i < |r| ==> r[i] == s[i] as int
  {
    seq(|s|, i requires 0 <= i < |s| => s[i] as int)
  }

  /** Go's `<` on strings: bytewise lexicographic order. */
  predicate BytesLess(a: bytes, b: bytes)
    decreases |a|
  {
    |b| > 0 && (|a| == 0 || a[0] < b[0] || (a[0] == b[0] && BytesLess(a[1..], b[1..])))
  }

  lemma {:induction false} BytesLessIrreflexive(a: bytes)
    ensures !BytesLess(a, a)
    decreases |a|
  {
    if |a| > 0 { BytesLessIrreflexive(a[1..]); }
  }

  lemma {:induction false} BytesLessTransitive(a: bytes, b: bytes, c: bytes)
    requires BytesLess(a, b) && BytesLess(b, c)
    ensures BytesLess(a, c)
    decreases |a|
  {
    if |a| > 0 && a[0] == b[0] == c[0] { BytesLessTransitive(a[1..], b[1..], c[1..]); }
  }

  lemma {:induction false} BytesLessTotal(a: bytes, b: bytes)
    ensures BytesLess(a, b) || a == b || BytesLess(b, a)
    decreases |a|
  {
    if |a| > 0 && |b| > 0 && a[0] == b[0] {
      BytesLessTotal(a[1..], b[1..]);
      assert a == [a[0]] + a[1..] && b == [b[0]] + b[1..];
    }
  }

  /** The two texts agree in front of place `i`, where the first ends or has the lesser byte. */
  predicate DifferAt(a: bytes, b: bytes, i: nat) {
    i <= |a| && i < |b| && a[..i] == b[..i] && (i == |a| || a[i] < b[i])
  }

  /** A text is less when it is a proper prefix of the other, or has the lesser byte at the first place where they differ. */
  lemma {:induction false} BytesLessExactly(a: bytes, b: bytes)
    ensures BytesLess(a, b) <==> exists i: nat :: DifferAt(a, b, i)
    decreases |a|
  {
    if |a| > 0 && |b| > 0 && a[0] == b[0] {
      BytesLessExactly(a[1..], b[1..]);
      assert a == [a[0]] + a[1..] && b == [b[0]] + b[1..];
      if i: nat :| DifferAt(a[1..], b[1..], i) {
        assert a[..i + 1] == [a[0]] + a[1..][..i] && b[..i + 1] == [b[0]] + b[1..][..i];
        assert DifferAt(a, b, i + 1);
      }
      if i: nat :| DifferAt(a, b, i) {
        assert i > 0 && a[1..][..i - 1] == a[..i][1..] && b[1..][..i - 1] == b[..i][1..];
        assert DifferAt(a[1..], b[1..], i - 1);
      }
    } else {
      forall i: nat ensures DifferAt(a, b, i) ==> i == 0 { FirstByteAgrees(a, b, i); }
      assert BytesLess(a, b) ==> DifferAt(a, b, 0);
    }
  }

  lemma {:induction false} FirstByteAgrees(a: bytes, b: bytes, i: nat)
    ensures DifferAt(a, b, i) ==> i == 0 || (|a| > 0 && |b| > 0 && a[0] == b[0])
  {
    if DifferAt(a, b, i) && i > 0 { assert a[..i][0] == a[0] && b[..i][0] == b[0]; }
  }
}
