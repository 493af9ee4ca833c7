/** The glob patterns of lib/wildcard/wildcard.go. */
module Wildcard {
  import opened Bytes
  import opened Collections

  const STAR: byte := 42
  const QUESTION: byte := 63
  const BACKSLASH: byte := 92
  const OPEN: byte := 91
  const CLOSE: byte := 93
  const DASH: byte := 45
  const CARET: byte := 94

  datatype Item = Normal(character: byte) | All | Any | OneOf(chars: set<byte>) | Range(chars: set<byte>) | NoneOf(chars: set<byte>)

  /** Which single bytes an item stands for. */
  ghost predicate Accepts(it: Item, c: byte) {
    match it
    case Normal(x) => c == x
    case All => false
    case Any => true
    case OneOf(s) => c in s
    case Range(s) => exists lo, hi :: lo in s && hi in s && lo <= c <= hi
    case NoneOf(s) => c !in s
  }

  /** The test for the three kinds of bracket item; a range goes from its smallest to its largest byte. */
  method Contains(it: Item, c: byte) returns (r: bool)
    requires it.OneOf? || it.Range? || it.NoneOf?
    ensures r <==> Accepts(it, c)
  {
    match it
    case OneOf(s) => return c in s;
    case NoneOf(s) => return c !in s;
    case Range(s) =>
      var min, max := Bounds(s);
      return c >= min && c <= max;
  }

  method Bounds(s: set<byte>) returns (min: byte, max: byte)
    ensures if s == {} then min == 255 && max == 0 else min in s && max in s
    ensures forall k :: k in s ==> min <= k <= max
  {
    min, max := 255, 0;
    var rest := s;
    while rest != {}
      invariant rest <= s
      invariant forall k :: k in s && k !in rest ==> min <= k <= max
      invariant if rest == s then min == 255 && max == 0 else min in s && max in s
      decreases |rest|
    {
      var k :| k in rest;
      if min > k { min := k; }
      if max < k { max := k; }
      rest := rest - {k};
    }
  }

  // ----- what it means to match -----

  /** The stretch of the key an item can stand for. */
  ghost predicate Fits(it: Item, piece: bytes) {
    it.All? || (|piece| == 1 && Accepts(it, piece[0]))
  }

  function Join(pieces: seq<bytes>): bytes {
    if pieces == [] then [] else Join(pieces[..|pieces| - 1]) + pieces[|pieces| - 1]
  }

  ghost predicate IsDivision(items: seq<Item>, key: bytes, pieces: seq<bytes>) {
    |pieces| == |items| && Join(pieces) == key && forall i :: 0 <= i < |items| ==> Fits(items[i], pieces[i])
  }

  /** A key matches when it can be divided into one stretch for each item. */
  ghost predicate Matches(items: seq<Item>, key: bytes) {
    exists pieces :: IsDivision(items, key, pieces)
  }

  /** The recursive relation behind the table: look at the last item and the last byte. */
  ghost predicate Match(items: seq<Item>, key: bytes)
    decreases |items| + |key|
  {
    if items == [] then key == []
    else
      var n, m := |items| - 1, |key| - 1;
      if items[n].All? then Match(items[..n], key) || (key != [] && Match(items, key[..m]))
      else key != [] && Accepts(items[n], key[m]) && Match(items[..n], key[..m])
  }

  lemma {:induction false} MatchDivides(items: seq<Item>, key: bytes) returns (pieces: seq<bytes>)
    requires Match(items, key)
    ensures IsDivision(items, key, pieces)
    decreases |items| + |key|
  {
    if items == [] {
      pieces := [];
    } else {
      var n, m := |items| - 1, |key| - 1;
      if !items[n].All? {
        var p := MatchDivides(items[..n], key[..m]);
        pieces := OneMoreItem(items, key[..m], p, [key[m]]);
        assert key[..m] + [key[m]] == key;
      } else if Match(items[..n], key) {
        var p := MatchDivides(items[..n], key);
        pieces := OneMoreItem(items, key, p, []);
        assert key + [] == key;
      } else {
        var p := MatchDivides(items, key[..m]);
        pieces := OneMoreItem(items, Join(p[..n]), p[..n], p[n] + [key[m]]);
        assert Join(p[..n]) + (p[n] + [key[m]]) == key;
      }
    }
  }

  lemma {:induction false} OneMoreItem(items: seq<Item>, key: bytes, p: seq<bytes>, last: bytes) returns (pieces: seq<bytes>)
    requires items != [] && IsDivision(items[..|items| - 1], key, p) && Fits(items[|items| - 1], last)
    ensures IsDivision(items, key + last, pieces)
  {
    pieces := p + [last];
    assert pieces[..|p|] == p;
  }

  /** The last star takes one byte less. */
  lemma {:induction false} OneByteLess(items: seq<Item>, key: bytes, pieces: seq<bytes>) returns (shorter: seq<bytes>)
    requires items != [] && items[|items| - 1].All? && IsDivision(items, key, pieces) && pieces[|items| - 1] != []
    ensures key != [] && IsDivision(items, key[..|key| - 1], shorter)
  {
    var n := |items| - 1;
    var last := pieces[n];
    shorter := pieces[..n] + [last[..|last| - 1]];
    assert shorter[..n] == pieces[..n];
    assert key == Join(pieces[..n]) + last;
    assert Join(shorter) == key[..|key| - 1];
  }

  lemma {:induction false} DivisionMatches(items: seq<Item>, key: bytes, pieces: seq<bytes>)
    requires IsDivision(items, key, pieces)
    ensures Match(items, key)
    decreases |items| + |key|
  {
    if items != [] {
      var n, m := |items| - 1, |key| - 1;
      var last := pieces[n];
      var k := |key| - |last|;
      assert key[..k] == Join(pieces[..n]);
      if last == [] {
        assert key[..k] == key;
        DivisionMatches(items[..n], key, pieces[..n]);
      } else if items[n].All? {
        var shorter := OneByteLess(items, key, pieces);
        DivisionMatches(items, key[..m], shorter);
      } else {
        assert key[m] == last[0];
        DivisionMatches(items[..n], key[..m], pieces[..n]);
      }
    }
  }

  /** The recursive relation is the division into stretches. */
  lemma {:induction false} MatchExactly(items: seq<Item>, key: bytes)
    ensures Match(items, key) <==> Matches(items, key)
  {
    if Match(items, key) { var pieces := MatchDivides(items, key); }
    if pieces :| IsDivision(items, key, pieces) { DivisionMatches(items, key, pieces); }
  }

  // ----- the table -----

  /** Cell (i, j) tells whether the first i bytes match the first j items. */
  ghost predicate Cell(items: seq<Item>, key: bytes, i: nat, j: nat)
    requires i <= |key| && j <= |items|
  {
    Match(items[..j], key[..i])
  }

  lemma {:induction false} CellNext(items: seq<Item>, key: bytes, i: nat, j: nat)
    requires i <= |key| && 0 < j <= |items|
    ensures Cell(items, key, i, j) <==>
            if items[j - 1].All? then Cell(items, key, i, j - 1) || (i > 0 && Cell(items, key, i - 1, j))
            else i > 0 && Accepts(items[j - 1], key[i - 1]) && Cell(items, key, i - 1, j - 1)
  {
    assert items[..j][..j - 1] == items[..j - 1];
    if i > 0 { assert key[..i][..i - 1] == key[..i - 1]; }
  }

  /** One row of the table from the row above it. */
  method FillRow(items: seq<Item>, key: bytes, table: array2<bool>, i: nat)
    requires table.Length0 == |key| + 1 && table.Length1 == |items| + 1 && 1 <= i <= |key|
    requires forall h: nat, k: nat :: h < i && k <= |items| ==> (table[h, k] <==> Cell(items, key, h, k))
    requires forall h, k :: i <= h <= |key| && 0 <= k <= |items| ==> !table[h, k]
    modifies table
    ensures forall h: nat, k: nat :: h <= i && k <= |items| ==> (table[h, k] <==> Cell(items, key, h, k))
    ensures forall h, k :: i < h <= |key| && 0 <= k <= |items| ==> !table[h, k]
  {
    assert key[..i] != [] && items[..0] == [];
    for j := 1 to |items| + 1
      invariant forall h: nat, k: nat :: h < i && k <= |items| ==> (table[h, k] <==> Cell(items, key, h, k))
      invariant forall k: nat :: k < j ==> (table[i, k] <==> Cell(items, key, i, k))
      invariant forall k :: j <= k <= |items| ==> !table[i, k]
      invariant forall h, k :: i < h <= |key| && 0 <= k <= |items| ==> !table[h, k]
    {
      CellNext(items, key, i, j);
      var it := items[j - 1];
      if it.All? {
        table[i, j] := table[i, j - 1] || table[i - 1, j];
      } else if table[i - 1, j - 1] {
        if it.Any? {
          table[i, j] := true;
        } else if it.Normal? {
          if it.character == key[i - 1] { table[i, j] := true; }
        } else {
          var ok := Contains(it, key[i - 1]);
          if ok { table[i, j] := true; }
        }
      }
    }
  }

  method IsMatch(items: seq<Item>, key: bytes) returns (r: bool)
    ensures r <==> Matches(items, key)
  {
    MatchExactly(items, key);
    if |items| == 0 {
      return |key| == 0;
    }
    var n, m := |items|, |key|;
    var table := new bool[m + 1, n + 1]((_, _) => false);
    table[0, 0] := true;
    assert items[..0] == [] && key[..0] == [];
    for j := 1 to n + 1
      invariant forall i, k :: 1 <= i <= m && 0 <= k <= n ==> !table[i, k]
      invariant forall k: nat :: k < j ==> (table[0, k] <==> Cell(items, key, 0, k))
      invariant forall k :: j <= k <= n ==> !table[0, k]
    {
      CellNext(items, key, 0, j);
      table[0, j] := table[0, j - 1] && items[j - 1].All?;
    }
    for i := 1 to m + 1
      invariant forall h: nat, k: nat :: h < i && k <= n ==> (table[h, k] <==> Cell(items, key, h, k))
      invariant forall h, k :: i <= h <= m && 0 <= k <= n ==> !table[h, k]
    {
      FillRow(items, key, table, i);
    }
    assert items[..n] == items && key[..m] == key;
    return table[m, n];
  }

  // ----- compiling a pattern -----

  /** The items so far; whether the next byte is escaped; whether a bracket is open, and the bytes in it. */
  datatype Scan = Scan(items: seq<Item>, escape: bool, inSet: bool, chars: set<byte>)

  const FRESH := Scan([], false, false, {})

  /** The item for a closed bracket: a dash makes it a range, a caret a negation, and the caret wins. */
  function Bracket(s: set<byte>): Item {
    if CARET in s then NoneOf(s - {DASH, CARET})
    else if DASH in s then Range(s - {DASH})
    else OneOf(s)
  }

  function Feed(st: Scan, c: byte): Scan {
    if st.escape then st.(items := st.items + [Normal(c)], escape := false)
    else if c == STAR then st.(items := st.items + [All])
    else if c == QUESTION then st.(items := st.items + [Any])
    else if c == BACKSLASH then st.(escape := true)
    else if st.inSet then
      if c == CLOSE then Scan(st.items + [Bracket(st.chars)], false, false, {})
      else st.(chars := st.chars + {c})
    else if c == OPEN then st.(inSet := true, chars := {})
    else st.(items := st.items + [Normal(c)])
  }

  function Scanned(st: Scan, src: bytes): Scan {
    if src == [] then st else Feed(Scanned(st, src[..|src| - 1]), src[|src| - 1])
  }

  function Compile(src: bytes): seq<Item> {
    Scanned(FRESH, src).items
  }

  /** The loop over the pattern's code points, of which only the low byte is looked at. */
  method CompilePattern(src: seq<nat>) returns (items: seq<Item>)
    ensures items == Compile(LowBytes(src))
  {
    items := [];
    var escape, inSet, chars: set<byte> := false, false, {};
    ghost var low := LowBytes(src);
    for i := 0 to |src|
      invariant Scanned(FRESH, low[..i]) == Scan(items, escape, inSet, chars)
      invariant !inSet ==> chars == {}
    {
      assert low[..i + 1][..i] == low[..i];
      var c := src[i] % 256;
      if escape {
        items := items + [Normal(c)];
        escape := false;
      } else if c == STAR {
        items := items + [All];
      } else if c == QUESTION {
        items := items + [Any];
      } else if c == BACKSLASH {
        escape := true;
      } else if c == OPEN {
        if !inSet {
          inSet, chars := true, {};
        } else {
          chars := chars + {c};
        }
      } else if c == CLOSE {
        if inSet {
          items := items + [Bracket(chars)];
          inSet, chars := false, {};
        } else {
          items := items + [Normal(c)];
        }
      } else if inSet {
        chars := chars + {c};
      } else {
        items := items + [Normal(c)];
      }
    }
    assert low[..|src|] == low;
  }

  function LowBytes(src: seq<nat>): (r: bytes)
    ensures |r| == |src| && forall i :: 0 <= i < |r| ==> r[i] == src[i] % 256
  {
    seq(|src|, i requires 0 <= i < |src| => src[i] % 256)
  }

  // ----- patterns put together -----

  lemma {:induction false} ScannedConcat(st: Scan, a: bytes, b: bytes)
    ensures Scanned(st, a + b) == Scanned(Scanned(st, a), b)
    decreases |b|
  {
    if b == [] {
      assert a + b == a;
    } else {
      var n := |b| - 1;
      assert (a + b)[..|a| + n] == a + b[..n];
      ScannedConcat(st, a, b[..n]);
    }
  }

  /** The items in front do not influence how the rest is read. */
  lemma {:induction false} ItemsInFront(front: seq<Item>, st: Scan, src: bytes)
    ensures Scanned(st.(items := front + st.items), src) ==
            Scanned(st, src).(items := front + Scanned(st, src).items)
  {
    if src != [] {
      var n := |src| - 1;
      ItemsInFront(front, st, src[..n]);
      FeedInFront(front, Scanned(st, src[..n]), src[n]);
    }
  }

  lemma {:induction false} FeedInFront(front: seq<Item>, st: Scan, c: byte)
    ensures Feed(st.(items := front + st.items), c) == Feed(st, c).(items := front + Feed(st, c).items)
  {
    assert forall it: Item :: (front + st.items) + [it] == front + (st.items + [it]);
  }

  /** Nothing is left open at the end of the pattern. */
  predicate Closed(src: bytes) {
    var st := Scanned(FRESH, src);
    !st.escape && !st.inSet && st.chars == {}
  }

  lemma {:induction false} CompileConcat(a: bytes, b: bytes)
    requires Closed(a)
    ensures Compile(a + b) == Compile(a) + Compile(b) && (Closed(b) ==> Closed(a + b))
  {
    ScannedConcat(FRESH, a, b);
    assert Compile(a) + [] == Compile(a);
    ItemsInFront(Compile(a), FRESH, b);
  }

  lemma {:induction false} JoinConcat(p: seq<bytes>, q: seq<bytes>)
    ensures Join(p + q) == Join(p) + Join(q)
    decreases |q|
  {
    if q == [] {
      assert p + q == p;
    } else {
      var n := |q| - 1;
      assert (p + q)[..|p| + n] == p + q[..n];
      JoinConcat(p, q[..n]);
    }
  }

  lemma {:induction false} DivisionCut(a: seq<Item>, b: seq<Item>, key: bytes, pieces: seq<bytes>) returns (x: bytes, y: bytes)
    requires IsDivision(a + b, key, pieces)
    ensures key == x + y && Matches(a, x) && Matches(b, y)
  {
    var p, q := pieces[..|a|], pieces[|a|..];
    assert pieces == p + q;
    JoinConcat(p, q);
    x, y := Join(p), Join(q);
    forall i | 0 <= i < |b| ensures Fits(b[i], q[i]) { assert (a + b)[|a| + i] == b[i]; }
    forall i | 0 <= i < |a| ensures Fits(a[i], p[i]) { assert (a + b)[i] == a[i]; }
    assert IsDivision(a, x, p) && IsDivision(b, y, q);
  }

  lemma {:induction false} DivisionsJoined(a: seq<Item>, b: seq<Item>, x: bytes, y: bytes)
    requires Matches(a, x) && Matches(b, y)
    ensures Matches(a + b, x + y)
  {
    var p :| IsDivision(a, x, p);
    var q :| IsDivision(b, y, q);
    JoinConcat(p, q);
    assert IsDivision(a + b, x + y, p + q);
  }

  /** A key matches two lists of items one behind the other when it can be cut so that each part matches its list. */
  lemma {:induction false} MatchesConcat(a: seq<Item>, b: seq<Item>, key: bytes)
    ensures Matches(a + b, key) <==> exists x, y :: key == x + y && Matches(a, x) && Matches(b, y)
  {
    if pieces :| IsDivision(a + b, key, pieces) { var x, y := DivisionCut(a, b, key, pieces); }
    if x, y :| key == x + y && Matches(a, x) && Matches(b, y) { DivisionsJoined(a, b, x, y); }
  }

  // ----- what patterns mean -----

  function Letters(s: bytes): (r: seq<Item>)
    ensures |r| == |s| && forall i :: 0 <= i < |s| ==> r[i] == Normal(s[i])
  {
    seq(|s|, i requires 0 <= i < |s| => Normal(s[i]))
  }

  /** A text with a backslash before every byte. */
  function Quote(s: bytes): bytes {
    if s == [] then [] else Quote(s[..|s| - 1]) + [BACKSLASH, s[|s| - 1]]
  }

  lemma {:induction false} QuoteScanned(s: bytes)
    ensures Scanned(FRESH, Quote(s)) == Scan(Letters(s), false, false, {})
  {
    if s != [] {
      var n := |s| - 1;
      QuoteScanned(s[..n]);
      var two := [BACKSLASH, s[n]];
      ScannedConcat(FRESH, Quote(s[..n]), two);
      var st := Scan(Letters(s[..n]), false, false, {});
      assert two[..1] == [BACKSLASH] && two[..1][..0] == [] && Scanned(st, []) == st;
      assert Scanned(st, two[..1]) == st.(escape := true);
      assert Letters(s) == Letters(s[..n]) + [Normal(s[n])];
    }
  }

  lemma {:induction false} LettersMatch(s: bytes, key: bytes)
    ensures Match(Letters(s), key) <==> key == s
  {
    if s != [] && key != [] {
      var n, m := |s| - 1, |key| - 1;
      assert Letters(s)[..n] == Letters(s[..n]);
      LettersMatch(s[..n], key[..m]);
      assert s == s[..n] + [s[n]] && key == key[..m] + [key[m]];
    }
  }

  /** A quoted text matches that text and nothing else. */
  lemma {:induction false} QuotedMatchesItself(s: bytes, key: bytes)
    ensures Matches(Compile(Quote(s)), key) <==> key == s
  {
    QuoteScanned(s);
    LettersMatch(s, key);
    MatchExactly(Letters(s), key);
  }

  lemma {:induction false} StarMatchesAll(key: bytes)
    ensures Compile([STAR]) == [All] && Matches(Compile([STAR]), key)
  {
    assert [STAR][..0] == [] && [key][..0] == [];
    assert Scanned(FRESH, []) == FRESH && [] + [All] == [All];
    assert Join([key]) == [] + key == key;
    assert IsDivision([All], key, [key]);
  }

  /** A quoted text and a star match the keys that begin with the text. */
  lemma {:induction false} PrefixPattern(s: bytes, key: bytes)
    ensures Matches(Compile(Quote(s) + [STAR]), key) <==> s <= key
  {
    QuoteScanned(s);
    CompileConcat(Quote(s), [STAR]);
    MatchesConcat(Compile(Quote(s)), Compile([STAR]), key);
    if Matches(Compile(Quote(s) + [STAR]), key) {
      var x, y :| key == x + y && Matches(Compile(Quote(s)), x) && Matches(Compile([STAR]), y);
      QuotedMatchesItself(s, x);
    }
    if s <= key {
      QuotedMatchesItself(s, s);
      StarMatchesAll(key[|s|..]);
      assert key == s + key[|s|..];
    }
  }

  predicate Ordinary(c: byte) {
    c !in {STAR, QUESTION, BACKSLASH, OPEN, CLOSE, DASH, CARET}
  }

  lemma {:induction false} OneItem(it: Item, key: bytes)
    requires !it.All?
    ensures Matches([it], key) <==> |key| == 1 && Accepts(it, key[0])
  {
    MatchExactly([it], key);
    assert [it][..0] == [];
    if |key| == 1 { assert key[..0] == []; }
  }

  lemma {:induction false} RangeCompiles(lo: byte, hi: byte)
    requires Ordinary(lo) && Ordinary(hi)
    ensures Compile([OPEN, lo, DASH, hi, CLOSE]) == [Range({lo, hi})]
  {
    var s := [OPEN, lo, DASH, hi, CLOSE];
    assert s[..4][..3] == s[..3] && s[..3][..2] == s[..2] && s[..2][..1] == s[..1] && s[..1][..0] == [];
    assert Scanned(FRESH, s[..1]) == Scan([], false, true, {});
    assert Scanned(FRESH, s[..2]) == Scan([], false, true, {lo});
    assert Scanned(FRESH, s[..3]) == Scan([], false, true, {lo, DASH});
    assert Scanned(FRESH, s[..4]) == Scan([], false, true, {lo, DASH, hi});
    assert {lo, DASH, hi} - {DASH} == {lo, hi};
  }

  /** `[a-z]` matches the single bytes between its ends, whichever end comes first. */
  lemma {:induction false} RangePattern(lo: byte, hi: byte, key: bytes)
    requires Ordinary(lo) && Ordinary(hi)
    ensures Matches(Compile([OPEN, lo, DASH, hi, CLOSE]), key) <==> |key| == 1 && (lo <= key[0] <= hi || hi <= key[0] <= lo)
  {
    RangeCompiles(lo, hi);
    OneItem(Range({lo, hi}), key);
    assert lo in {lo, hi} && hi in {lo, hi};
  }

  lemma {:induction false} NegatedCompiles(lo: byte, hi: byte)
    requires Ordinary(lo) && Ordinary(hi)
    ensures Compile([OPEN, CARET, lo, DASH, hi, CLOSE]) == [NoneOf({lo, hi})]
  {
    var s := [OPEN, CARET, lo, DASH, hi, CLOSE];
    assert s[..5][..4] == s[..4] && s[..4][..3] == s[..3] && s[..3][..2] == s[..2] && s[..2][..1] == s[..1] && s[..1][..0] == [];
    assert Scanned(FRESH, s[..1]) == Scan([], false, true, {});
    assert Scanned(FRESH, s[..2]) == Scan([], false, true, {CARET});
    assert Scanned(FRESH, s[..3]) == Scan([], false, true, {CARET, lo});
    assert Scanned(FRESH, s[..4]) == Scan([], false, true, {CARET, lo, DASH});
    assert Scanned(FRESH, s[..5]) == Scan([], false, true, {CARET, lo, DASH, hi});
    assert {CARET, lo, DASH, hi} - {DASH, CARET} == {lo, hi};
  }

  ghost predicate RejectsTheRange(lo: byte, hi: byte) {
    forall key :: Matches(Compile([OPEN, CARET, lo, DASH, hi, CLOSE]), key) <==> |key| == 1 && !(lo <= key[0] <= hi)
  }

  /**
   `[^a-z]` excludes only its two ends, so it rejects the whole range exactly when nothing lies between them: the
   documented `[^0-9]` lets 5 through.
   */
  lemma {:induction false} NegatedRangeExactly(lo: byte, hi: byte)
    requires Ordinary(lo) && Ordinary(hi) && lo <= hi
    ensures RejectsTheRange(lo, hi) <==> hi <= lo + 1
  {
    NegatedCompiles(lo, hi);
    forall key ensures Matches(Compile([OPEN, CARET, lo, DASH, hi, CLOSE]), key) <==> |key| == 1 && key[0] != lo && key[0] != hi {
      OneItem(NoneOf({lo, hi}), key);
    }
    if hi > lo + 1 {
      var mid := [lo + 1];
      assert Matches(Compile([OPEN, CARET, lo, DASH, hi, CLOSE]), mid);
    }
  }

  // ----- every kind of byte in a pattern -----

  /** Not a star, question mark, backslash or opening bracket; closing brackets, dashes and carets are plain outside brackets. */
  predicate Bare(c: byte) {
    c !in {42, 63, 92, 91}
  }

  lemma {:induction false} BareScanned(s: bytes)
    requires forall i :: 0 <= i < |s| ==> Bare(s[i])
    ensures Scanned(FRESH, s) == Scan(Letters(s), false, false, {})
  {
    if s != [] {
      var n := |s| - 1;
      BareScanned(s[..n]);
      assert Bare(s[n]);
      assert Letters(s) == Letters(s[..n]) + [Normal(s[n])];
    }
  }

  /** A text of bare bytes matches that text and nothing else. */
  lemma {:induction false} BareMatchesItself(s: bytes, key: bytes)
    requires forall i :: 0 <= i < |s| ==> Bare(s[i])
    ensures Matches(Compile(s), key) <==> key == s
    ensures Closed(s)
  {
    BareScanned(s);
    LettersMatch(s, key);
    MatchExactly(Letters(s), key);
  }

  lemma {:induction false} OneByteScanned(c: byte)
    ensures Scanned(FRESH, [c]) == Feed(FRESH, c)
  {
    assert [c][..0] == [];
  }

  /** A question mark matches every single byte, and a star everything. */
  lemma {:induction false} QuestionAndStar(key: bytes)
    ensures Matches(Compile([63]), key) <==> |key| == 1
    ensures Matches(Compile([42]), key)
    ensures Closed([63]) && Closed([42])
  {
    OneByteScanned(63);
    OneByteScanned(42);
    assert Compile([63]) == [Any] && Compile([42]) == [All];
    OneItem(Any, key);
    StarMatchesAll(key);
  }

  /** Bytes that a bracket collects: a star, a question mark and a backslash keep their meaning in it. */
  predicate Collected(c: byte) {
    c !in {42, 63, 92, 93}
  }

  lemma {:induction false} BracketScanned(items: seq<Item>, chars: set<byte>, s: bytes)
    requires forall i :: 0 <= i < |s| ==> Collected(s[i])
    ensures Scanned(Scan(items, false, true, chars), s) == Scan(items, false, true, chars + Elements(s))
  {
    if s == [] {
      assert chars + Elements(s) == chars;
    } else {
      var n := |s| - 1;
      BracketScanned(items, chars, s[..n]);
      assert Collected(s[n]) && s == s[..n] + [s[n]];
      ElementsMore(s[..n], s[n]);
      assert chars + Elements(s) == chars + Elements(s[..n]) + {s[n]};
    }
  }

  lemma {:induction false} LastFed(st: Scan, s: bytes, c: byte)
    ensures Scanned(st, s + [c]) == Feed(Scanned(st, s), c)
  {
    assert (s + [c])[..|s|] == s;
  }

  lemma {:induction false} OpenedScanned(s: bytes)
    requires forall i :: 0 <= i < |s| ==> Collected(s[i])
    ensures Scanned(FRESH, [91] + s) == Scan([], false, true, Elements(s))
  {
    OneByteScanned(91);
    ScannedConcat(FRESH, [91], s);
    BracketScanned([], {}, s);
    assert {} + Elements(s) == Elements(s);
  }

  lemma {:induction false} BracketCompiles(s: bytes)
    requires forall i :: 0 <= i < |s| ==> Collected(s[i])
    ensures Compile([91] + s + [93]) == [Bracket(Elements(s))] && Closed([91] + s + [93])
  {
    OpenedScanned(s);
    LastFed(FRESH, [91] + s, 93);
  }

  /**
   A bracket matches the single bytes that stand in it, in any order. With a caret anywhere in it, it matches all
   others; with a dash, those from the least to the greatest.
   */
  lemma {:induction false} BracketMatches(s: bytes, key: bytes)
    requires forall i :: 0 <= i < |s| ==> Collected(s[i])
    ensures Matches(Compile([91] + s + [93]), key) <==>
              && |key| == 1
              && if 94 in s then key[0] !in s || key[0] in {94, 45}
                 else if 45 in s then exists lo, hi :: lo in s && hi in s && lo != 45 && hi != 45 && lo <= key[0] <= hi
                 else key[0] in s
  {
    BracketCompiles(s);
    var chars := Elements(s);
    OneItem(Bracket(chars), key);
    assert forall c :: c in chars <==> c in s;
    if |key| == 1 && 94 !in s && 45 in s { DashAccepts(s, key[0]); }
  }

  lemma {:induction false} DashAccepts(s: bytes, c: byte)
    ensures Accepts(Range(Elements(s) - {DASH}), c) <==> exists lo, hi :: lo in s && hi in s && lo != 45 && hi != 45 && lo <= c <= hi
  {
    var chars := Elements(s) - {DASH};
    assert forall x :: x in chars <==> x in s && x != 45;
  }

  /** A star in a bracket still matches any stretch, in front of what the bracket collects. */
  lemma {:induction false} StarInBracket(s: bytes, t: bytes, key: bytes)
    requires forall i :: 0 <= i < |s + t| ==> Collected((s + t)[i]) && (s + t)[i] !in {94, 45}
    ensures Matches(Compile([91] + s + [42] + t + [93]), key) <==> key != [] && key[|key| - 1] in s + t
  {
    StarCompiles(s, t);
    StretchThenOne(Elements(s + t), key);
    assert forall c :: c in Elements(s + t) <==> c in s + t;
  }

  lemma {:induction false} StarCompiles(s: bytes, t: bytes)
    requires forall i :: 0 <= i < |s + t| ==> Collected((s + t)[i]) && (s + t)[i] !in {94, 45}
    ensures Compile([91] + s + [42] + t + [93]) == [All] + [OneOf(Elements(s + t))]
  {
    forall i | 0 <= i < |s| ensures Collected(s[i]) { assert (s + t)[i] == s[i]; }
    forall i | 0 <= i < |t| ensures Collected(t[i]) { assert (s + t)[|s| + i] == t[i]; }
    var front := [91] + s + [42];
    OpenedScanned(s);
    LastFed(FRESH, [91] + s, 42);
    ScannedConcat(FRESH, front, t);
    assert [] + [All] == [All];
    BracketScanned([All], Elements(s), t);
    ElementsConcat(s, t);
    LastFed(FRESH, front + t, 93);
    assert CARET !in Elements(s + t) && DASH !in Elements(s + t);
  }

  lemma {:induction false} StretchThenOne(chars: set<byte>, key: bytes)
    ensures Matches([All] + [OneOf(chars)], key) <==> key != [] && key[|key| - 1] in chars
  {
    MatchesConcat([All], [OneOf(chars)], key);
    if x, y :| key == x + y && Matches([All], x) && Matches([OneOf(chars)], y) { OneItem(OneOf(chars), y); }
    if key != [] && key[|key| - 1] in chars {
      var m := |key| - 1;
      StarMatchesAll(key[..m]);
      OneItem(OneOf(chars), key[m..]);
      assert key == key[..m] + key[m..];
    }
  }

  /** An open bracket at the end of a pattern and a last backslash stand for nothing. */
  lemma {:induction false} LeftOpen(s: bytes, t: bytes, key: bytes)
    requires (forall i :: 0 <= i < |s| ==> Bare(s[i])) && forall i :: 0 <= i < |t| ==> Collected(t[i])
    ensures Matches(Compile(s + ([91] + t)), key) <==> key == s
    ensures Matches(Compile(s + [92]), key) <==> key == s
  {
    BareMatchesItself(s, key);
    CompileConcat(s, [91] + t);
    CompileConcat(s, [92]);
    OpenedScanned(t);
    OneByteScanned(92);
    assert Compile([91] + t) == [] && Compile([92]) == [] && Compile(s) + [] == Compile(s);
  }
}
