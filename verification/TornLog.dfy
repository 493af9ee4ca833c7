/** A log file cut off at any byte, as a server that stops in the middle of a write leaves it. */
module TornLog {
  import opened Bytes
  import opened Decimal
  import opened Resp
  import opened RoundTrip
  import opened Aof

  /** The parser comes to the end of the input without a panic, having received the given messages. */
  ghost predicate Receives(st: ReadState, input: bytes, ms: seq<Message>) {
    var (sent, end) := Run(st, input);
    end.Closed? && Received(sent) == ms
  }

  lemma {:induction false} NoLineEnd(s: bytes)
    requires LF !in s
    ensures LineEnd(s) == 0
  {
    if s != [] { NoLineEnd(s[1..]); }
  }

  /** A line that is not complete is waited for. */
  lemma {:induction false} TornLine(st: ReadState, p: bytes)
    requires st.bulkLen == 0 && LF !in p
    ensures Receives(st, p, [])
  {
    NoLineEnd(p);
    assert Run(st, p) == ([], Closed(st, p));
  }

  /** So is a bulk that is not complete. */
  lemma {:induction false} TornBulk(st: ReadState, p: bytes)
    requires 0 < st.bulkLen && st.bulkLen + 2 <= MAX_INT64 && |p| < st.bulkLen + 2
    ensures Receives(st, p, [])
  {
    assert Run(st, p) == ([], Closed(st, p));
  }

  /** What is cut out of a line before its line feed has none. */
  lemma {:induction false} CutLine(h: bytes, rest: bytes, p: bytes)
    requires LF !in h && p <= h + (CRLF + rest)
    ensures if |p| < |h| + 2 then LF !in p else p == h + (CRLF + p[|h| + 2..]) && p[|h| + 2..] <= rest
  {
    var s := h + (CRLF + rest);
    if |p| < |h| + 2 {
      forall i | 0 <= i < |p| ensures p[i] != LF { assert p[i] == s[i]; }
    } else {
      var q := p[|h| + 2..];
      forall i | 0 <= i < |p| ensures p[i] == (h + (CRLF + q))[i] { assert p[i] == s[i]; }
      forall i | 0 <= i < |q| ensures q[i] == rest[i] { assert p[|h| + 2 + i] == s[|h| + 2 + i]; }
    }
  }

  /** In the middle of a message, a cut within the next argument, or before its end, yields nothing yet. */
  lemma {:induction false} TornArg(st: ReadState, a: bytes, rest: bytes, p: bytes)
    requires st.multi && st.bulkLen == 0 && !IsDone(st) && a != [] && a[0] != DOLLAR && |a| + 2 <= MAX_INT64
    requires p <= ArgBytes(Some(a)) + rest
    ensures |p| < |ArgBytes(Some(a))| ==> Receives(st, p, [])
    ensures |p| >= |ArgBytes(Some(a))| ==> p == ArgBytes(Some(a)) + p[|ArgBytes(Some(a))|..] && p[|ArgBytes(Some(a))|..] <= rest
  {
    var n := |ArgBytes(Some(a))|;
    if |p| >= n {
      var s := ArgBytes(Some(a)) + rest;
      forall i | 0 <= i < n ensures p[i] == ArgBytes(Some(a))[i] { assert p[i] == s[i]; }
      forall i | 0 <= i < |p| - n ensures p[n..][i] == rest[i] { assert p[n + i] == s[n + i]; }
    } else {
      var h, tail := [DOLLAR] + FormatNat(|a|), a + (CRLF + rest);
      ArgSplit(a, rest);
      DigitsHaveNoLF(DOLLAR, |a|);
      CutLine(h, tail, p);
      if |p| < |h| + 2 {
        TornLine(st, p);
      } else {
        TornBody(st, a, p[|h| + 2..]);
      }
    }
  }

  lemma {:induction false} TornBody(st: ReadState, a: bytes, q: bytes)
    requires st.multi && st.bulkLen == 0 && !IsDone(st) && a != [] && |a| + 2 <= MAX_INT64 && |q| < |a| + 2
    ensures Receives(st, [DOLLAR] + FormatNat(|a|) + (CRLF + q), [])
  {
    HeaderRead(st, |a|, q);
    RunQuietly(st, [DOLLAR] + FormatNat(|a|) + (CRLF + q), st.(bulkLen := |a|), q);
    TornBulk(st.(bulkLen := |a|), q);
  }

  /** An empty last argument is complete with its header. */
  lemma {:induction false} TornEmptyArg(args: Message, p: bytes)
    requires Readable(args) && args[|args| - 1] == Some([]) && p <= ArgBytes(Some([])) && |p| < |ArgBytes(Some([]))|
    ensures Receives(Midway(args, |args| - 1), p, [])
            || (Receives(Midway(args, |args| - 1), p, [args]) && |p| + 2 >= |ArgBytes(Some([]))|)
  {
    var st, h := Midway(args, |args| - 1), [DOLLAR] + FormatNat(0);
    var empty: bytes := [];
    ArgSplit(empty, empty);
    assert ArgBytes(Some(empty)) + empty == ArgBytes(Some(empty)) && empty + (CRLF + empty) == CRLF;
    DigitsHaveNoLF(DOLLAR, 0);
    CutLine(h, CRLF, p);
    if |p| < |h| + 2 {
      TornLine(st, p);
    } else {
      var q := p[|h| + 2..];
      assert LF !in q;
      EmptyArgArrives(args, q);
    }
  }

  lemma {:induction false} EmptyArgArrives(args: Message, q: bytes)
    requires Readable(args) && args[|args| - 1] == Some([]) && LF !in q
    ensures Receives(Midway(args, |args| - 1), [DOLLAR] + FormatNat(0) + (CRLF + q), [args])
  {
    var st, input := Midway(args, |args| - 1), [DOLLAR] + FormatNat(0) + (CRLF + q);
    HeaderRead(st, 0, q);
    assert Values(args)[..|args| - 1] + [[]] == Values(args);
    assert Strings(Values(args)) == args;
    RunStep(st, input);
    NoLineEnd(q);
    assert Run(IDLE, q) == ([], Closed(IDLE, q));
    var one := [Data(MultiBulk(args))];
    assert one + [] == one && one[1..] == [];
    assert Received(one) == [args] + Received([]) == [args];
  }

  lemma {:induction false} TornLastArg(args: Message, p: bytes)
    requires Readable(args) && p <= ArgsBytes(args[|args| - 1..]) && |p| < |ArgsBytes(args[|args| - 1..])|
    ensures Receives(Midway(args, |args| - 1), p, [])
            || (Receives(Midway(args, |args| - 1), p, [args]) && |p| + 2 >= |ArgsBytes(args[|args| - 1..])|)
  {
    var n := |args| - 1;
    var a, last := args[n].value, args[n..];
    assert last == [Some(a)] && last[1..] == [];
    assert ArgsBytes(last) == ArgBytes(Some(a)) + [] == ArgBytes(Some(a));
    if a == [] {
      TornEmptyArg(args, p);
    } else {
      TornArg(Midway(args, n), a, [], p);
    }
  }

  /** A message cut off in the middle is not received, or received whole when only its last line break is missing. */
  lemma {:induction false} TornArgs(args: Message, i: nat, p: bytes)
    requires Readable(args) && i < |args| && p <= ArgsBytes(args[i..]) && |p| < |ArgsBytes(args[i..])|
    ensures Receives(Midway(args, i), p, [])
            || (Receives(Midway(args, i), p, [args]) && |p| + 2 >= |ArgsBytes(args[i..])|)
    decreases |args| - i
  {
    if i + 1 < |args| {
      var a, rest := args[i].value, ArgsBytes(args[i + 1..]);
      NextArg(args, i, []);
      assert ArgsBytes(args[i..]) + [] == ArgsBytes(args[i..]) && rest + [] == rest;
      TornArg(Midway(args, i), a, rest, p);
      var n := |ArgBytes(Some(a))|;
      if |p| >= n {
        TornArgs(args, i + 1, p[n..]);
        ArgOn(args, i, p[n..]);
      }
    } else {
      TornLastArg(args, p);
    }
  }

  lemma {:induction false} ArgOn(args: Message, i: nat, q: bytes)
    requires Readable(args) && i + 1 < |args|
    ensures Run(Midway(args, i), ArgBytes(args[i]) + q) == Run(Midway(args, i + 1), q)
  {
    var a, st := args[i].value, Midway(args, i);
    ArgRead(st, a, q);
    assert Values(args)[..i + 1] == Values(args)[..i] + [a];
    assert [] + Run(Midway(args, i + 1), q).0 == Run(Midway(args, i + 1), q).0;
  }

  lemma {:induction false} TornMessage(args: Message, p: bytes)
    requires Readable(args) && p <= ToBytes(MultiBulk(args)) && |p| < |ToBytes(MultiBulk(args))|
    ensures Receives(IDLE, p, []) || (Receives(IDLE, p, [args]) && |p| + 2 >= |ToBytes(MultiBulk(args))|)
  {
    var h, more := [STAR] + FormatNat(|args|), ArgsBytes(args);
    Regroup(h, CRLF, more);
    DigitsHaveNoLF(STAR, |args|);
    CutLine(h, more, p);
    if |p| < |h| + 2 {
      TornLine(IDLE, p);
    } else {
      var q := p[|h| + 2..];
      assert args[0..] == args;
      TornArgs(args, 0, q);
      MessageBegins(args, q);
    }
  }

  lemma {:induction false} MessageBegins(args: Message, q: bytes)
    requires Readable(args)
    ensures Run(IDLE, [STAR] + FormatNat(|args|) + (CRLF + q)) == Run(Midway(args, 0), q)
  {
    var h := [STAR] + FormatNat(|args|);
    DigitsHaveNoLF(STAR, |args|);
    StepLine(IDLE, h, q);
    Cut(h, q);
    ParseUintAfterFormat(|args|, MAX_UINT32);
    assert Values(args)[..0] == [];
    RunQuietly(IDLE, h + (CRLF + q), Midway(args, 0), q);
  }

  /** A first part of a stream is shorter than a longer first part. */
  lemma {:induction false} StreamGrows(ms: seq<Message>, j: nat)
    requires 0 < j <= |ms|
    ensures Stream(ms[..j]) == ToBytes(MultiBulk(ms[0])) + Stream(ms[1..][..j - 1])
  {
    assert ms[..j][1..] == ms[1..][..j - 1];
  }

  /**
   How much of a file cut off at `n` bytes counts: every message that lies wholly within it, and besides at most one
   whose last line break is missing.
   */
  ghost predicate Counts(ms: seq<Message>, n: nat, k: nat) {
    && k <= |ms| && (k > 0 ==> |Stream(ms[..k])| <= n + 2)
    && forall j :: 0 <= j <= |ms| && |Stream(ms[..j])| <= n ==> j <= k
  }

  /** Whatever is left of the file, the parser receives the first messages of it, whole and in order. */
  lemma {:induction false} TornStream(ms: seq<Message>, p: bytes) returns (k: nat)
    requires (forall i :: 0 <= i < |ms| ==> Readable(ms[i])) && p <= Stream(ms)
    ensures Counts(ms, |p|, k) && Receives(IDLE, p, ms[..k])
    decreases |ms|
  {
    if ms == [] {
      TornLine(IDLE, p);
      k := 0;
    } else {
      var t := ToBytes(MultiBulk(ms[0]));
      if |p| < |t| {
        k := TornFirst(ms, t, Stream(ms[1..]), p);
        CountsFirst(ms, |p|, k);
      } else {
        CutFront(t, Stream(ms[1..]), p);
        var j := TornStream(ms[1..], p[|t|..]);
        FirstArrives(ms[0], p[|t|..], ms[1..][..j]);
        FirstAndMore(ms, j);
        k := j + 1;
        CountsMore(ms, |p|, j);
      }
    }
  }

  lemma {:induction false} CountsFirst(ms: seq<Message>, n: nat, k: nat)
    requires ms != [] && n < |ToBytes(MultiBulk(ms[0]))| && (k == 0 || (k == 1 && |ToBytes(MultiBulk(ms[0]))| <= n + 2))
    ensures Counts(ms, n, k)
  {
    if k == 1 {
      StreamGrows(ms, 1);
      assert ms[1..][..0] == [];
    }
    forall j | 0 <= j <= |ms| && |Stream(ms[..j])| <= n ensures j <= k {
      if j > 0 { StreamGrows(ms, j); }
    }
  }

  lemma {:induction false} CountsMore(ms: seq<Message>, n: nat, k: nat)
    requires ms != [] && n >= |ToBytes(MultiBulk(ms[0]))| && Counts(ms[1..], n - |ToBytes(MultiBulk(ms[0]))|, k)
    ensures Counts(ms, n, k + 1)
  {
    StreamGrows(ms, k + 1);
    if k == 0 { assert ms[1..][..0] == []; }
    forall j | 0 <= j <= |ms| && |Stream(ms[..j])| <= n ensures j <= k + 1 {
      if j > 0 { StreamGrows(ms, j); }
    }
  }

  lemma {:induction false} TornFirst(ms: seq<Message>, t: bytes, rest: bytes, p: bytes) returns (k: nat)
    requires ms != [] && Readable(ms[0]) && t == ToBytes(MultiBulk(ms[0])) && p <= t + rest && |p| < |t|
    ensures (k == 0 || (k == 1 && |t| <= |p| + 2)) && Receives(IDLE, p, ms[..k])
  {
    var s := t + rest;
    forall i | 0 <= i < |p| ensures p[i] == t[i] { assert p[i] == s[i]; }
    TornMessage(ms[0], p);
    assert ms[..0] == [] && ms[..1] == [ms[0]];
    k := if Receives(IDLE, p, []) then 0 else 1;
  }

  lemma {:induction false} FirstAndMore<T>(q: seq<T>, j: nat)
    requires j < |q|
    ensures q[..j + 1] == [q[0]] + q[1..][..j]
  {
  }

  lemma {:induction false} CutFront(t: bytes, rest: bytes, p: bytes)
    requires p <= t + rest && |p| >= |t|
    ensures p == t + p[|t|..] && p[|t|..] <= rest
  {
    var s := t + rest;
    forall i | 0 <= i < |t| ensures p[i] == t[i] { assert p[i] == s[i]; }
    forall i | 0 <= i < |p| - |t| ensures p[|t|..][i] == rest[i] { assert p[|t| + i] == s[|t| + i]; }
  }

  lemma {:induction false} FirstArrives(m: Message, q: bytes, more: seq<Message>)
    requires Readable(m) && Receives(IDLE, q, more)
    ensures Receives(IDLE, ToBytes(MultiBulk(m)) + q, [m] + more)
  {
    MessageRead(m, q);
    ReceivedHead(m, Run(IDLE, q).0);
  }

  // ----- replaying what is left -----

  lemma {:induction false} LinesPrefix(cur: int, ps: seq<Entry>, m: nat)
    requires m <= |ps|
    ensures Lines(cur, ps[..m]) <= Lines(cur, ps)
    decreases |ps|
  {
    if m > 0 {
      LinesPrefix(ps[0].db, ps[1..], m - 1);
      assert ps[..m][1..] == ps[1..][..m - 1];
    }
  }

  /** The first `k` lines of a log hold its first `j` entries, and no more. */
  ghost predicate HoldsEntries(cur: int, ps: seq<Entry>, k: nat, j: nat) {
    && j <= |ps| && |Lines(cur, ps[..j])| <= k
    && forall m :: 0 <= m <= |ps| && |Lines(cur, ps[..m])| <= k ==> m <= j
  }

  lemma {:induction false} HoldsNone(cur: int, ps: seq<Entry>, k: nat)
    requires ps != [] && k <= if ps[0].db != cur then 1 else 0
    ensures HoldsEntries(cur, ps, k, 0)
  {
    assert forall m :: 0 < m <= |ps| ==> ps[..m][0] == ps[0];
  }

  lemma {:induction false} HoldsOneMore(cur: int, ps: seq<Entry>, k: nat, j: nat)
    requires ps != []
    requires var front := if ps[0].db != cur then 2 else 1; k >= front && HoldsEntries(ps[0].db, ps[1..], k - front, j)
    ensures HoldsEntries(cur, ps, k, j + 1)
  {
    assert ps[..j + 1][0] == ps[0] && ps[..j + 1][1..] == ps[1..][..j];
    forall m | 0 <= m <= |ps| && |Lines(cur, ps[..m])| <= k ensures m <= j + 1 {
      if m > 0 { assert ps[..m][0] == ps[0] && ps[..m][1..] == ps[1..][..m - 1]; }
    }
  }

  /** What the replay is after the first `j` entries behind `run`. */
  ghost predicate RanFirst(e: Replay, run: seq<Entry>, ps: seq<Entry>, j: nat, srv: Server)
    requires j <= |ps|
  {
    if Smooth(srv, run, ps[..j]) then e.Replay? && e.run == run + ps[..j] else e == Crashed
  }

  /** The first lines of a log replay its first commands. */
  lemma {:induction false} FirstLinesReplay(r: Replay, ps: seq<Entry>, srv: Server, k: nat) returns (j: nat)
    requires r.Replay? && r.selected == r.current && forall i :: 0 <= i < |ps| ==> Loggable(ps[i], srv)
    requires k <= |Lines(r.current, ps)|
    ensures HoldsEntries(r.current, ps, k, j) && forall i :: 0 <= i < k ==> Lines(r.current, ps)[..k][i] != []
    ensures RanFirst(ReplayLines(r, Lines(r.current, ps)[..k], srv), r.run, ps, j, srv)
    decreases |ps|
  {
    LinesNonEmpty(r.current, ps);
    if ps == [] {
      j := 0;
      assert r.run + ps[..0] == r.run;
    } else {
      var front := if ps[0].db != r.current then 1 else 0;
      if k <= front {
        j := 0;
        HoldsNone(r.current, ps, k);
        OnlyFront(r, ps, srv, k);
      } else {
        j := HeadAndRest(r, ps, srv, k);
      }
    }
  }

  lemma {:induction false} OnlyFront(r: Replay, ps: seq<Entry>, srv: Server, k: nat)
    requires r.Replay? && ps != [] && Loggable(ps[0], srv) && k <= if ps[0].db != r.current then 1 else 0
    requires k <= |Lines(r.current, ps)| && forall i :: 0 <= i < |Lines(r.current, ps)| ==> Lines(r.current, ps)[i] != []
    ensures RanFirst(ReplayLines(r, Lines(r.current, ps)[..k], srv), r.run, ps, 0, srv)
  {
    assert r.run + ps[..0] == r.run;
    if k == 1 {
      var one := [SelectLine(ps[0].db)];
      assert Lines(r.current, ps)[..1] == one;
      SelectReplays(r, ps[0].db, srv);
      assert one[1..] == [];
    }
  }

  lemma {:induction false} HeadAndRest(r: Replay, ps: seq<Entry>, srv: Server, k: nat) returns (j: nat)
    requires r.Replay? && r.selected == r.current && ps != [] && forall i :: 0 <= i < |ps| ==> Loggable(ps[i], srv)
    requires (if ps[0].db != r.current then 2 else 1) <= k <= |Lines(r.current, ps)|
    ensures HoldsEntries(r.current, ps, k, j) && forall i :: 0 <= i < k ==> Lines(r.current, ps)[..k][i] != []
    ensures RanFirst(ReplayLines(r, Lines(r.current, ps)[..k], srv), r.run, ps, j, srv)
    decreases |ps|, 0
  {
    var p, rest := ps[0], Lines(ps[0].db, ps[1..]);
    var n := k - if p.db != r.current then 2 else 1;
    HeadThenRest(r, ps, srv, k, n);
    var i := FirstLinesReplay(Replay(r.run + [p], p.db, p.db), ps[1..], srv, n);
    j := i + 1;
    HoldsOneMore(r.current, ps, k, i);
    RanOneMore(r, ps, srv, i, ReplayLines(Replay(r.run + [p], p.db, p.db), rest[..n], srv));
  }

  lemma {:induction false} HeadThenRest(r: Replay, ps: seq<Entry>, srv: Server, k: nat, n: nat)
    requires r.Replay? && r.selected == r.current && ps != [] && forall i :: 0 <= i < |ps| ==> Loggable(ps[i], srv)
    requires n + (if ps[0].db != r.current then 2 else 1) == k <= |Lines(r.current, ps)|
    ensures var p, rest := ps[0], Lines(ps[0].db, ps[1..]);
            && n <= |rest| && (forall i :: 0 <= i < k ==> Lines(r.current, ps)[..k][i] != [])
            && (forall i :: 0 <= i < n ==> rest[..n][i] != [])
            && ReplayLines(r, Lines(r.current, ps)[..k], srv) ==
               if srv.fails(r.run, p) then Crashed else ReplayLines(Replay(r.run + [p], p.db, p.db), rest[..n], srv)
  {
    LinesNonEmpty(ps[0].db, ps[1..]);
    FirstLinesAre(r.current, ps, k);
    HeadReplays(r, ps[0], Lines(ps[0].db, ps[1..])[..n], srv);
  }

  lemma {:induction false} FirstLinesAre(cur: int, ps: seq<Entry>, k: nat)
    requires ps != [] && (if ps[0].db != cur then 2 else 1) <= k <= |Lines(cur, ps)|
    ensures var head := (if ps[0].db != cur then [SelectLine(ps[0].db)] else []) + [ps[0].line];
            var rest := Lines(ps[0].db, ps[1..]);
            k - |head| <= |rest| && Lines(cur, ps)[..k] == head + rest[..k - |head|]
  {
    var head := (if ps[0].db != cur then [SelectLine(ps[0].db)] else []) + [ps[0].line];
    assert Lines(cur, ps) == head + Lines(ps[0].db, ps[1..]);
  }

  lemma {:induction false} RanOneMore(r: Replay, ps: seq<Entry>, srv: Server, i: nat, e: Replay)
    requires r.Replay? && ps != [] && i <= |ps| - 1 && RanFirst(e, r.run + [ps[0]], ps[1..], i, srv)
    ensures RanFirst(if srv.fails(r.run, ps[0]) then Crashed else e, r.run, ps, i + 1, srv)
  {
    var q := ps[..i + 1];
    assert q[0] == ps[0] && q[1..] == ps[1..][..i];
    SmoothTail(srv, r.run, q);
    FirstAndMore(ps, i);
    Regroup(r.run, [ps[0]], ps[1..][..i]);
  }

  /**
   A log cut off at any byte replays some first part of its commands, each in its own database: all that lie wholly
   within the file, and besides at most one that only lacks its last line break.
   */
  lemma {:induction false} TornLogReplays(ps: seq<Entry>, srv: Server, file: bytes) returns (j: nat)
    requires forall i :: 0 <= i < |ps| ==> Loggable(ps[i], srv) && ReadableEntry(ps[i])
    requires file <= FileOf(Lines(0, ps))
    ensures j <= |ps| && |FileOf(Lines(0, ps[..j]))| <= |file| + 2
    ensures forall m :: 0 <= m <= |ps| && |FileOf(Lines(0, ps[..m]))| <= |file| ==> m <= j
    ensures if Smooth(srv, [], ps[..j]) then Replays(file, ps[..j], srv) else ReplayFile(file, srv) == Some(Crashed)
  {
    var lines := Lines(0, ps);
    if ps != [] {
      assert Loggable(ps[0], srv);
      LinesReadable(0, ps, srv);
    }
    var k := TornStream(Messages(lines), file);
    assert Messages(lines)[..k] == Messages(lines[..k]);
    ReplayOfReceived(file, lines[..k], srv);
    j := FirstLinesReplay(FRESH_START, ps, srv, k);
    assert FRESH_START.run + ps[..j] == ps[..j];
    WholeEntriesCount(ps, |file|, k, j);
  }

  lemma {:induction false} AtMostOneMore(ps: seq<Entry>, n: nat, k: nat, j: nat)
    requires Counts(Messages(Lines(0, ps)), n, k) && HoldsEntries(0, ps, k, j)
    ensures |FileOf(Lines(0, ps[..j]))| <= n + 2
  {
    var ms, i := Messages(Lines(0, ps)), |Lines(0, ps[..j])|;
    LinesPrefix(0, ps, j);
    assert ms[..i] == Messages(Lines(0, ps[..j]));
    ShorterStream(ms, i, k);
    if k == 0 { assert ms[..i] == []; }
  }

  lemma {:induction false} ShorterStream(ms: seq<Message>, i: nat, k: nat)
    requires i <= k <= |ms|
    ensures |Stream(ms[..i])| <= |Stream(ms[..k])|
  {
    assert ms[..k] == ms[..i] + ms[i..k];
    StreamConcat(ms[..i], ms[i..k]);
  }

  lemma {:induction false} WholeEntriesCount(ps: seq<Entry>, n: nat, k: nat, j: nat)
    requires Counts(Messages(Lines(0, ps)), n, k) && HoldsEntries(0, ps, k, j)
    ensures forall m :: 0 <= m <= |ps| && |FileOf(Lines(0, ps[..m]))| <= n ==> m <= j
    ensures |FileOf(Lines(0, ps[..j]))| <= n + 2
  {
    AtMostOneMore(ps, n, k, j);
    forall m | 0 <= m <= |ps| && |FileOf(Lines(0, ps[..m]))| <= n ensures m <= j {
      LinesPrefix(0, ps, m);
      var i := |Lines(0, ps[..m])|;
      assert Messages(Lines(0, ps))[..i] == Messages(Lines(0, ps[..m]));
    }
  }

  // ----- a server that goes on behind a torn line -----

  /** Lines appended behind whole lines are all received. */
  lemma {:induction false} WholeLinesGoOn(lines: seq<seq<bytes>>, more: seq<seq<bytes>>, srv: Server)
    requires AllReadable(lines) && AllReadable(more)
    ensures ReplayFile(FileOf(lines) + FileOf(more), srv) == Some(ReplayLines(FRESH_START, lines + more, srv))
  {
    FileOfConcat(lines, more);
    LinesReceived(lines + more, srv);
  }

  /** Arguments without the header of their message arrive one by one, and not as a message. */
  lemma {:induction false} BareArgs(args: Message, rest: bytes)
    requires forall i :: 0 <= i < |args| ==> Plain(args[i]) && args[i] != Some([])
    ensures Received(Run(IDLE, ArgsBytes(args) + rest).0) == Received(Run(IDLE, rest).0)
  {
    if args == [] {
      assert ArgsBytes(args) + rest == rest;
    } else {
      assert args[0..] == args;
      NextArg(args, 0, rest);
      BareArgs(args[1..], rest);
      var more := Run(IDLE, ArgsBytes(args[1..]) + rest).0;
      BulkArrives(args[0].value, ArgsBytes(args[1..]) + rest);
      var one := [Data(Bulk(args[0]))];
      ReceivedConcat(one, more);
      assert one[1..] == [] && Received(one) == [];
      assert [] + Received(more) == Received(more);
    }
  }

  /**
   A server that stopped right behind the star of a message and goes on appending after its restart loses the first
   command it appends, and no other.
   */
  lemma {:induction false} TornStarLosesOne(m: Message, more: seq<Message>)
    requires Readable(m) && (forall i :: 0 <= i < |m| ==> m[i] != Some([])) && forall i :: 0 <= i < |more| ==> Readable(more[i])
    ensures Received(Run(IDLE, [STAR] + Stream([m] + more)).0) == more
  {
    var rest := ArgsBytes(m) + Stream(more);
    TwoStars(m, Stream(more));
    assert ([m] + more)[1..] == more;
    assert [STAR] + Stream([m] + more) == [STAR] + (ToBytes(MultiBulk(m)) + Stream(more));
    BareArgs(m, Stream(more));
    StreamRead(more);
  }

  /** The header with one star too many is an error, and the arguments are left without it. */
  lemma {:induction false} TwoStars(m: Message, more: bytes)
    ensures Received(Run(IDLE, [STAR] + (ToBytes(MultiBulk(m)) + more)).0) == Received(Run(IDLE, ArgsBytes(m) + more).0)
  {
    var h, rest := [STAR] + ([STAR] + FormatNat(|m|)), ArgsBytes(m) + more;
    TwoStarsBytes(m, more);
    TwoStarsLine(|m|, rest);
    RunStep(IDLE, h + (CRLF + rest));
    ErrorIsNotReceived(BAD_HEADER + (h + CRLF), Run(IDLE, rest).0);
  }

  lemma {:induction false} TwoStarsBytes(m: Message, more: bytes)
    ensures [STAR] + (ToBytes(MultiBulk(m)) + more) == [STAR] + ([STAR] + FormatNat(|m|)) + (CRLF + (ArgsBytes(m) + more))
  {
    Regroup([STAR] + FormatNat(|m|) + CRLF, ArgsBytes(m), more);
    Regroup([STAR] + FormatNat(|m|), CRLF, ArgsBytes(m) + more);
    Regroup([STAR], [STAR] + FormatNat(|m|), CRLF + (ArgsBytes(m) + more));
  }

  lemma {:induction false} ErrorIsNotReceived(text: bytes, sent: seq<Payload>)
    ensures Received([Err(text)] + sent) == Received(sent)
  {
    var one := [Err(text)];
    ReceivedConcat(one, sent);
    assert one[1..] == [] && Received(one) == [];
    assert [] + Received(sent) == Received(sent);
  }

  lemma {:induction false} TwoStarsLine(n: nat, rest: bytes)
    ensures var h := [STAR] + ([STAR] + FormatNat(n)); Step(IDLE, h + (CRLF + rest)) == Next(IDLE, rest, [Err(BAD_HEADER + (h + CRLF))])
  {
    var h := [STAR] + ([STAR] + FormatNat(n));
    FormatNatIsDigits(n);
    StepLine(IDLE, h, rest);
    Cut(h, rest);
    assert h[1..] == [STAR] + FormatNat(n) && h[1..][0] == STAR;
  }
}
