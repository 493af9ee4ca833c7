/** Decimal texts as strconv writes and reads them: Itoa/FormatInt, ParseUint and ParseInt in base 10. */
module Decimal {
  import opened Bytes

  datatype Option<+T> = None | Some(value: T)

  const MIN_INT64 := -0x8000_0000_0000_0000
  const MAX_INT64 := 0x7fff_ffff_ffff_ffff

  const MINUS: byte := 45
  const PLUS: byte := 43

  function FormatNat(n: nat): (s: bytes)
    ensures |s| >= 1
  {
    if n < 10 then [48 + n] else FormatNat(n / 10) + [48 + n % 10]
  }

  function FormatInt(v: int): bytes {
    if v < 0 then [MINUS] + FormatNat(-v) else FormatNat(v)
  }

  predicate AllDigits(s: bytes) {
    |s| >= 1 && forall i :: 0 <= i < |s| ==> 48 <= s[i] <= 57
  }

  function DigitsValue(s: bytes): nat
    requires forall i :: 0 <= i < |s| ==> 48 <= s[i] <= 57
  {
    if s == [] then 0 else 10 * DigitsValue(s[..|s| - 1]) + (s[|s| - 1] - 48)
  }

  /** ParseUint with a bit size whose largest value is `max`. */
  function ParseUint(s: bytes, max: nat): Option<nat> {
    if AllDigits(s) && DigitsValue(s) <= max then Some(DigitsValue(s)) else None
  }

  /** ParseInt with bit size 64: an optional sign, then digits, within range. */
  function ParseInt(s: bytes): (r: Option<int>)
    ensures r.Some? ==> MIN_INT64 <= r.value <= MAX_INT64
  {
    if s == [] then None
    else if s[0] == MINUS then
      match ParseUint(s[1..], -MIN_INT64)
      case Some(n) => var v: int := n; Some(-v)
      case None => None
    else
      ParseUint(if s[0] == PLUS then s[1..] else s, MAX_INT64)
  }

  lemma {:induction false} FormatNatIsShort(n: nat)
    ensures |FormatNat(n)| <= n / 10 + 1
  {
    if n >= 10 { FormatNatIsShort(n / 10); }
  }

  lemma {:induction false} FormatNatIsDigits(n: nat)
    ensures AllDigits(FormatNat(n)) && DigitsValue(FormatNat(n)) == n
  {
    if n < 10 {
      assert FormatNat(n)[..0] == [];
    } else {
      FormatNatIsDigits(n / 10);
      var s := FormatNat(n / 10);
      assert (s + [48 + n % 10])[..|s|] == s;
    }
  }

  /** Reading back a printed length or count. */
  lemma ParseUintAfterFormat(n: nat, max: nat)
    ensures ParseUint(FormatNat(n), max) == if n <= max then Some(n) else None
  {
    FormatNatIsDigits(n);
  }

  /** Reading back a printed integer: exactly the 64-bit ones are read. */
  lemma ParseIntAfterFormat(v: int)
    ensures ParseInt(FormatInt(v)) == if MIN_INT64 <= v <= MAX_INT64 then Some(v) else None
  {
    if v < 0 {
      FormatNatIsDigits(-v);
      assert FormatInt(v)[1..] == FormatNat(-v);
    } else {
      FormatNatIsDigits(v);
    }
  }

  lemma FormatIntInjective(v: int, w: int)
    requires FormatInt(v) == FormatInt(w) && MIN_INT64 <= v <= MAX_INT64
    ensures v == w
  {
    ParseIntAfterFormat(v);
    ParseIntAfterFormat(w);
  }

  /** The texts FormatInt writes for 64-bit integers. */
  predicate IsCanonical(s: bytes) {
    ParseInt(s).Some? && FormatInt(ParseInt(s).value) == s
  }

  /** "007" is read as 7 but is not what 7 is printed as. */
  lemma LeadingZerosAreNotCanonical()
    ensures ParseInt([48, 48, 55]) == Some(7) && FormatInt(7) == [55] && !IsCanonical([48, 48, 55])
  {
    assert [48, 48, 55][..2] == [48, 48] && [48, 48][..1] == [48] && [48][..0] == [];
    assert DigitsValue([48]) == 0 && DigitsValue([48, 48]) == 0;
  }

  // ----- places and signs -----

  function Pow10(k: nat): nat {
    if k == 0 then 1 else 10 * Pow10(k - 1)
  }

  /** Each digit counts for its place. */
  lemma {:induction false} FirstDigitCounts(s: bytes)
    requires AllDigits(s)
    ensures DigitsValue(s) == (s[0] - 48) * Pow10(|s| - 1) + DigitsValue(s[1..])
  {
    var n := |s| - 1;
    if n == 0 {
      assert s[..0] == [] && s[1..] == [];
    } else {
      FirstDigitCounts(s[..n]);
      assert s[..n][1..] == s[1..][..n - 1] && s[1..][n - 1] == s[n];
      Tenfold(s[0] - 48, Pow10(n - 1));
    }
  }

  lemma {:induction false} Tenfold(d: int, p: nat)
    ensures 10 * (d * p) == d * (10 * p)
  {
  }

  /** Printed numbers have no leading zero, and are digits with at most a minus in front. */
  lemma {:induction false} PrintedDigits(n: nat)
    ensures AllDigits(FormatNat(n)) && (FormatNat(n)[0] == 48 <==> n == 0)
    ensures FormatInt(n) == FormatNat(n) && (n > 0 ==> FormatInt(0 - n) == [45] + FormatNat(n))
  {
    FormatNatIsDigits(n);
    if n >= 10 { PrintedDigits(n / 10); }
  }

  /** A text is read as an integer when it is digits, with at most one sign in front, and their value is in range. */
  lemma {:induction false} ParseIntExactly(s: bytes, v: int)
    ensures ParseInt(s) == Some(v) <==>
              && MIN_INT64 <= v <= MAX_INT64
              && ((AllDigits(s) && v == DigitsValue(s))
                  || (s != [] && s[0] == 43 && AllDigits(s[1..]) && v == DigitsValue(s[1..]))
                  || (s != [] && s[0] == 45 && AllDigits(s[1..]) && v == 0 - DigitsValue(s[1..])))
  {
  }

  /** 1203 is printed as "1203". */
  lemma {:induction false} PrintedExample(n: nat)
    requires n == 1203
    ensures FormatNat(n) == [49, 50, 48, 51]
  {
    OneMoreDigit(1, 2);
    OneMoreDigit(12, 0);
    OneMoreDigit(120, 3);
  }

  lemma {:induction false} OneMoreDigit(n: nat, d: nat)
    requires n > 0 && d < 10
    ensures FormatNat(10 * n + d) == FormatNat(n) + [48 + d]
  {
  }
}
