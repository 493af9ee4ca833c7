/** Parsing what the printer printed: which messages come back, and what happens to the others. */
module RoundTrip {
  import opened Bytes
  import opened Decimal
  import opened Resp

  // ----- reading one piece -----

  lemma {:induction false} LineEndAt(p: bytes, rest: bytes)
    requires LF !in p
    ensures LineEnd(p + (CRLF + rest)) == |p| + 2
  {
    var s := p + (CRLF + rest);
    if p == [] {
      assert s == [CR] + ([LF] + rest);
      assert s[1..] == [LF] + rest;
    } else {
      LineEndAt(p[1..], rest);
      assert s[1..] == p[1..] + (CRLF + rest);
    }
  }

  lemma {:induction false} Cut(p: bytes, rest: bytes)
    ensures var s := p + (CRLF + rest);
            && s[..|p| + 2] == p + CRLF && s[|p| + 2..] == rest && s[|p|] == CR && s[|p| + 1] == LF
            && |s| >= |p| + 2 && (p + CRLF)[..|p|] == p
  {
  }

  /** A line without a line feed inside is read whole. */
  lemma {:induction false} StepLine(st: ReadState, p: bytes, rest: bytes)
    requires st.bulkLen == 0 && LF !in p
    ensures Step(st, p + (CRLF + rest)) == Process(st, p + CRLF, rest)
  {
    LineEndAt(p, rest);
    Cut(p, rest);
  }

  /** A bulk of the announced length is read whole, whatever bytes it holds. */
  lemma {:induction false} StepBulk(st: ReadState, a: bytes, rest: bytes)
    requires 0 < st.bulkLen == |a| && |a| + 2 <= MAX_INT64
    ensures Step(st, a + (CRLF + rest)) == Process(st.(bulkLen := 0), a + CRLF, rest)
  {
    Cut(a, rest);
  }

  lemma {:induction false} DigitsHaveNoLF(c: byte, n: nat)
    requires c != LF
    ensures LF !in [c] + FormatNat(n) && ([c] + FormatNat(n))[1..] == FormatNat(n)
  {
    FormatNatIsDigits(n);
  }

  /** What the rest of the run yields after a round. */
  function Resume(o: Outcome): (seq<Payload>, End)
    requires o.Next?
  {
    var (more, end) := Run(o.state, o.rest);
    (o.sent + more, end)
  }

  lemma {:induction false} RunStep(st: ReadState, input: bytes)
    requires Step(st, input).Next?
    ensures Run(st, input) == Resume(Step(st, input))
  {
  }

  lemma {:induction false} RunQuietly(st: ReadState, input: bytes, st': ReadState, rest: bytes)
    requires Step(st, input) == Next(st', rest, [])
    ensures Run(st, input) == Run(st', rest)
  {
    RunStep(st, input);
    assert [] + Run(st', rest).0 == Run(st', rest).0;
  }

  // ----- one argument -----

  /** An argument header announces the length; 0 is taken as an empty argument at once. */
  lemma {:induction false} HeaderRead(st: ReadState, n: nat, rest: bytes)
    requires st.multi && st.bulkLen == 0
    ensures Step(st, [DOLLAR] + FormatNat(n) + (CRLF + rest)) ==
            if n > MAX_INT64 then Next(IDLE, rest, [Err(BAD_HEADER + ([DOLLAR] + FormatNat(n) + CRLF))])
            else Deliver(if n == 0 then st.(args := st.args + [[]]) else st.(bulkLen := n), rest)
  {
    var p := [DOLLAR] + FormatNat(n);
    DigitsHaveNoLF(DOLLAR, n);
    StepLine(st, p, rest);
    Cut(p, rest);
    ParseIntAfterFormat(n);
  }

  lemma {:induction false} ArgSplit(a: bytes, rest: bytes)
    ensures ArgBytes(Some(a)) + rest == [DOLLAR] + FormatNat(|a|) + (CRLF + (a + (CRLF + rest)))
  {
    var p := [DOLLAR] + FormatNat(|a|);
    Regroup(p, CRLF, a);
    Regroup(p, CRLF + a, CRLF);
    Regroup(CRLF, a, CRLF);
    Regroup(p, CRLF + (a + CRLF), rest);
    Regroup(CRLF, a + CRLF, rest);
    Regroup(a, CRLF, rest);
  }

  /** A non-empty argument that does not begin with a dollar sign comes through, line breaks and all. */
  lemma {:induction false} ArgRead(st: ReadState, a: bytes, rest: bytes)
    requires st.multi && st.bulkLen == 0 && !IsDone(st)
    requires a != [] && a[0] != DOLLAR && |a| + 2 <= MAX_INT64
    ensures Run(st, ArgBytes(Some(a)) + rest) == Resume(Deliver(st.(args := st.args + [a]), rest))
  {
    ArgSplit(a, rest);
    SplitArgRead(st, a, rest, ArgBytes(Some(a)) + rest);
  }

  lemma {:induction false} SplitArgRead(st: ReadState, a: bytes, rest: bytes, input: bytes)
    requires st.multi && st.bulkLen == 0 && !IsDone(st)
    requires a != [] && a[0] != DOLLAR && |a| + 2 <= MAX_INT64
    requires input == [DOLLAR] + FormatNat(|a|) + (CRLF + (a + (CRLF + rest)))
    ensures Run(st, input) == Resume(Deliver(st.(args := st.args + [a]), rest))
  {
    var tail := a + (CRLF + rest);
    var st1 := st.(bulkLen := |a|);
    HeaderRead(st, |a|, tail);
    RunQuietly(st, input, st1, tail);
    BulkRead(st, a, rest);
    RunStep(st1, tail);
  }

  lemma {:induction false} BulkRead(st: ReadState, a: bytes, rest: bytes)
    requires st.multi && st.bulkLen == 0
    requires a != [] && a[0] != DOLLAR && |a| + 2 <= MAX_INT64
    ensures Step(st.(bulkLen := |a|), a + (CRLF + rest)) == Deliver(st.(args := st.args + [a]), rest)
  {
    StepBulk(st.(bulkLen := |a|), a, rest);
    Cut(a, rest);
  }

  /** A bulk reply of its own arrives whole, line breaks included. */
  lemma {:induction false} BulkArrives(a: bytes, rest: bytes)
    requires a != [] && a[0] != DOLLAR && |a| + 2 <= MAX_INT64
    ensures Run(IDLE, ArgBytes(Some(a)) + rest) == ([Data(Bulk(Some(a)))] + Run(IDLE, rest).0, Run(IDLE, rest).1)
  {
    var h, tail := [DOLLAR] + FormatNat(|a|), a + (CRLF + rest);
    var st := ReadState(true, 1, DOLLAR, [], |a|);
    ArgSplit(a, rest);
    DigitsHaveNoLF(DOLLAR, |a|);
    StepLine(IDLE, h, tail);
    Cut(h, tail);
    ParseIntAfterFormat(|a|);
    RunQuietly(IDLE, h + (CRLF + tail), st, tail);
    BulkRead(st.(bulkLen := 0), a, rest);
    RunStep(st, tail);
    assert [] + [a] == [a];
  }

  // ----- one message -----

  /** Arguments that are not nil, not too long for an int64 length, and do not begin with a dollar sign. */
  predicate Plain(arg: Option<bytes>) {
    arg.Some? && |arg.value| + 2 <= MAX_INT64 && (arg.value != [] ==> arg.value[0] != DOLLAR)
  }

  /** At least one argument, all of them plain, and none but the last empty. */
  predicate Readable(args: seq<Option<bytes>>) {
    && 0 < |args| <= MAX_UINT32
    && (forall i :: 0 <= i < |args| ==> Plain(args[i]))
    && (forall i :: 0 <= i < |args| - 1 ==> args[i] != Some([]))
  }

  function Values(args: seq<Option<bytes>>): (r: seq<bytes>)
    requires forall i :: 0 <= i < |args| ==> args[i].Some?
    ensures |r| == |args| && forall i :: 0 <= i < |r| ==> args[i] == Some(r[i])
  {
    seq(|args|, i requires 0 <= i < |args| => args[i].value)
  }

  /** What follows a message: the line break of an empty last argument is read as a line of its own. */
  function Leftover(args: seq<Option<bytes>>): seq<Payload>
    requires args != []
  {
    if args[|args| - 1] == Some([]) then [NilData] else []
  }

  /** In the middle of an array message: `i` of its arguments have been read. */
  function Midway(args: seq<Option<bytes>>, i: nat): ReadState
    requires i <= |args| && forall j :: 0 <= j < |args| ==> args[j].Some?
  {
    ReadState(true, |args|, STAR, Values(args)[..i], 0)
  }

  lemma {:induction false} LineBreakAlone(rest: bytes)
    ensures Run(IDLE, CRLF + rest) == ([NilData] + Run(IDLE, rest).0, Run(IDLE, rest).1)
  {
    assert [] + (CRLF + rest) == CRLF + rest;
    StepLine(IDLE, [], rest);
    assert [] + CRLF == CRLF;
    RunStep(IDLE, CRLF + rest);
  }

  lemma {:induction false} NextArg(args: seq<Option<bytes>>, i: nat, rest: bytes)
    requires i < |args|
    ensures ArgsBytes(args[i..]) + rest == ArgBytes(args[i]) + (ArgsBytes(args[i + 1..]) + rest)
  {
    assert args[i..][0] == args[i] && args[i..][1..] == args[i + 1..];
    Regroup(ArgBytes(args[i]), ArgsBytes(args[i + 1..]), rest);
  }

  /** One argument further in the middle of a message. */
  lemma {:induction false} OneArgOn(args: seq<Option<bytes>>, i: nat, rest: bytes)
    requires i + 1 < |args| && (forall j :: 0 <= j < |args| ==> args[j].Some?) && Plain(args[i]) && args[i] != Some([])
    ensures Run(Midway(args, i), ArgsBytes(args[i..]) + rest) == Run(Midway(args, i + 1), ArgsBytes(args[i + 1..]) + rest)
  {
    var a, st := args[i].value, Midway(args, i);
    var more := ArgsBytes(args[i + 1..]) + rest;
    NextArg(args, i, rest);
    assert Values(args)[..i + 1] == Values(args)[..i] + [a];
    ArgRead(st, a, more);
    assert [] + Run(Midway(args, i + 1), more).0 == Run(Midway(args, i + 1), more).0;
  }

  /** From the middle of a readable message to its end. */
  lemma {:induction false} ArgsRead(args: seq<Option<bytes>>, i: nat, rest: bytes)
    requires Readable(args) && i < |args|
    ensures Run(Midway(args, i), ArgsBytes(args[i..]) + rest)
         == ([Data(MultiBulk(args))] + Leftover(args) + Run(IDLE, rest).0, Run(IDLE, rest).1)
    decreases |args| - i
  {
    if i + 1 < |args| {
      OneArgOn(args, i, rest);
      ArgsRead(args, i + 1, rest);
    } else {
      LastArgRead(args, rest);
    }
  }

  lemma {:induction false} LastArgRead(args: seq<Option<bytes>>, rest: bytes)
    requires Readable(args)
    ensures Run(Midway(args, |args| - 1), ArgsBytes(args[|args| - 1..]) + rest)
         == ([Data(MultiBulk(args))] + Leftover(args) + Run(IDLE, rest).0, Run(IDLE, rest).1)
  {
    var n := |args| - 1;
    var a, st, last := args[n].value, Midway(args, n), args[n..];
    assert last == [Some(a)] && last[1..] == [];
    assert ArgsBytes(last) == ArgBytes(Some(a)) + [] == ArgBytes(Some(a));
    assert Values(args)[..n] + [a] == Values(args);
    assert Strings(Values(args)) == args;
    var next := st.(args := st.args + [a]);
    if a == [] {
      var tail := CRLF + rest;
      ArgSplit(a, rest);
      assert [] + tail == tail;
      HeaderRead(st, 0, tail);
      RunStep(st, ArgBytes(Some(a)) + rest);
      LineBreakAlone(rest);
      Regroup([Data(MultiBulk(args))], [NilData], Run(IDLE, rest).0);
    } else {
      ArgRead(st, a, rest);
      assert [Data(MultiBulk(args))] + [] == [Data(MultiBulk(args))];
    }
  }

  /** A readable message is sent exactly as printed, and the parser is idle again. */
  lemma {:induction false} MessageRead(args: seq<Option<bytes>>, rest: bytes)
    requires Readable(args)
    ensures Run(IDLE, ToBytes(MultiBulk(args)) + rest)
         == ([Data(MultiBulk(args))] + Leftover(args) + Run(IDLE, rest).0, Run(IDLE, rest).1)
  {
    var p := [STAR] + FormatNat(|args|);
    var more := ArgsBytes(args) + rest;
    Regroup(p, CRLF, ArgsBytes(args));
    Regroup(p, CRLF + ArgsBytes(args), rest);
    Regroup(CRLF, ArgsBytes(args), rest);
    DigitsHaveNoLF(STAR, |args|);
    StepLine(IDLE, p, more);
    Cut(p, more);
    ParseUintAfterFormat(|args|, MAX_UINT32);
    assert Values(args)[..0] == [];
    RunQuietly(IDLE, p + (CRLF + more), Midway(args, 0), more);
    assert args[0..] == args;
    ArgsRead(args, 0, rest);
  }

  // ----- streams of messages -----

  type Message = seq<Option<bytes>>

  /** The printed messages one after the other. */
  function Stream(ms: seq<Message>): bytes {
    if ms == [] then [] else ToBytes(MultiBulk(ms[0])) + Stream(ms[1..])
  }

  /** The array messages among the payloads, in order. */
  function Received(sent: seq<Payload>): seq<Message> {
    if sent == [] then []
    else (if sent[0].Data? && sent[0].reply.MultiBulk? then [sent[0].reply.args] else []) + Received(sent[1..])
  }

  lemma {:induction false} ReceivedConcat(a: seq<Payload>, b: seq<Payload>)
    ensures Received(a + b) == Received(a) + Received(b)
  {
    if a == [] {
      assert a + b == b;
    } else {
      ReceivedConcat(a[1..], b);
      assert (a + b)[1..] == a[1..] + b && (a + b)[0] == a[0];
      var first: seq<Message> := if a[0].Data? && a[0].reply.MultiBulk? then [a[0].reply.args] else [];
      Regroup(first, Received(a[1..]), Received(b));
    }
  }

  lemma {:induction false} ReceivedHead(m: Message, more: seq<Payload>)
    requires m != []
    ensures Received([Data(MultiBulk(m))] + Leftover(m) + more) == [m] + Received(more)
  {
    var head := [Data(MultiBulk(m))] + Leftover(m);
    ReceivedConcat(head, more);
    assert head[1..] == Leftover(m);
    assert Received(Leftover(m)) == [];
  }

  /** Readable messages are received in order, and the parser ends idle with nothing unread. */
  lemma {:induction false} StreamRead(ms: seq<Message>)
    requires forall i :: 0 <= i < |ms| ==> Readable(ms[i])
    ensures var (sent, end) := Run(IDLE, Stream(ms)); Received(sent) == ms && end == Closed(IDLE, [])
  {
    if ms != [] {
      var m, rest := ms[0], Stream(ms[1..]);
      StreamRead(ms[1..]);
      MessageRead(m, rest);
      ReceivedHead(m, Run(IDLE, rest).0);
      assert ms == [m] + ms[1..];
    }
  }

  // ----- what the parser never sends -----

  /** Array messages that the parser can send at all. */
  predicate Sendable(m: Message) {
    0 < |m| <= MAX_UINT32 && forall i :: 0 <= i < |m| ==> m[i].Some? && (m[i].value != [] ==> m[i].value[0] != DOLLAR)
  }

  predicate CleanState(st: ReadState) {
    (st.multi ==> st.expected <= MAX_UINT32) && forall i :: 0 <= i < |st.args| ==> st.args[i] != [] ==> st.args[i][0] != DOLLAR
  }

  predicate CleanSent(sent: seq<Payload>) {
    forall i :: 0 <= i < |sent| && sent[i].Data? && sent[i].reply.MultiBulk? ==> Sendable(sent[i].reply.args)
  }

  lemma {:induction false} DeliverStaysClean(st: ReadState, rest: bytes)
    requires CleanState(st) && st.multi
    ensures CleanState(Deliver(st, rest).state) && CleanSent(Deliver(st, rest).sent)
  {
  }

  lemma {:induction false} ProcessStaysClean(st: ReadState, msg: bytes, rest: bytes)
    requires |msg| >= 2 && msg[|msg| - 2] == CR && msg[|msg| - 1] == LF
    requires CleanState(st) && Process(st, msg, rest).Next?
    ensures CleanState(Process(st, msg, rest).state) && CleanSent(Process(st, msg, rest).sent)
  {
    if st.multi {
      var body := msg[..|msg| - 2];
      if body[0] != DOLLAR {
        DeliverStaysClean(st.(args := st.args + [body]), rest);
      } else if ParseInt(body[1..]).Some? {
        var n := ParseInt(body[1..]).value;
        DeliverStaysClean(if n <= 0 then st.(args := st.args + [[]], bulkLen := 0) else st.(bulkLen := n), rest);
      }
    }
  }

  lemma {:induction false} StepStaysClean(st: ReadState, input: bytes)
    requires CleanState(st) && Step(st, input).Next?
    ensures CleanState(Step(st, input).state) && CleanSent(Step(st, input).sent)
  {
    var n := if st.bulkLen == 0 then LineEnd(input) else st.bulkLen + 2;
    if input[n - 2] == CR && input[n - 1] == LF {
      ProcessStaysClean(st.(bulkLen := 0), input[..n], input[n..]);
      assert st.bulkLen == 0 ==> st.(bulkLen := 0) == st;
    }
  }

  lemma {:induction false} RunStaysClean(st: ReadState, input: bytes)
    requires CleanState(st)
    ensures CleanSent(Run(st, input).0)
    decreases |input|
  {
    var o := Step(st, input);
    if o.Next? {
      StepStaysClean(st, input);
      RunStaysClean(o.state, o.rest);
    }
  }

  lemma {:induction false} ReceivedIsClean(sent: seq<Payload>)
    requires CleanSent(sent)
    ensures forall i :: 0 <= i < |Received(sent)| ==> Sendable(Received(sent)[i])
  {
    if sent != [] {
      ReceivedIsClean(sent[1..]);
    }
  }

  // ----- an empty argument in the middle kills the parser -----

  lemma {:induction false} EmptyArgKills(args: Message, i: nat, rest: bytes)
    requires i + 1 < |args| && (forall j :: 0 <= j < |args| ==> args[j].Some?) && args[i] == Some([])
    ensures Run(Midway(args, i), ArgsBytes(args[i..]) + rest) == ([], Died)
  {
    var more := ArgsBytes(args[i + 1..]) + rest;
    NextArg(args, i, rest);
    EmptyArgDies(Midway(args, i), more);
  }

  /** The header "$0" is an argument already; the line break behind it is then read as a line with nothing in it. */
  lemma {:induction false} EmptyArgDies(st: ReadState, more: bytes)
    requires st.multi && st.bulkLen == 0 && |st.args| + 1 < st.expected
    ensures Run(st, ArgBytes(Some([])) + more) == ([], Died)
  {
    ArgSplit([], more);
    assert [] + (CRLF + more) == CRLF + more;
    SplitEmptyArgDies(st, more, ArgBytes(Some([])) + more);
  }

  lemma {:induction false} SplitEmptyArgDies(st: ReadState, more: bytes, input: bytes)
    requires st.multi && st.bulkLen == 0 && |st.args| + 1 < st.expected
    requires input == [DOLLAR] + FormatNat(0) + (CRLF + (CRLF + more))
    ensures Run(st, input) == ([], Died)
  {
    var tail := CRLF + more;
    HeaderRead(st, 0, tail);
    var st1 := st.(args := st.args + [[]]);
    RunQuietly(st, input, st1, tail);
    BlankLineDies(st1, more);
  }

  lemma {:induction false} BlankLineDies(st: ReadState, more: bytes)
    requires st.multi && st.bulkLen == 0
    ensures Run(st, CRLF + more) == ([], Died)
  {
    StepLine(st, [], more);
    assert [] + CRLF == CRLF && [] + (CRLF + more) == CRLF + more;
    assert Step(st, CRLF + more) == Panic;
  }

  lemma {:induction false} UnreadableKills(args: Message, i: nat, rest: bytes)
    requires i < |args| && (forall j :: 0 <= j < |args| ==> args[j].Some? && Plain(args[j]))
    requires exists j :: i <= j < |args| - 1 && args[j] == Some([])
    ensures Run(Midway(args, i), ArgsBytes(args[i..]) + rest) == ([], Died)
    decreases |args| - i
  {
    if args[i] == Some([]) {
      EmptyArgKills(args, i, rest);
    } else {
      OneArgOn(args, i, rest);
      UnreadableKills(args, i + 1, rest);
    }
  }

  lemma {:induction false} UnreadableMessageKills(args: Message, rest: bytes)
    requires 0 < |args| <= MAX_UINT32 && (forall j :: 0 <= j < |args| ==> Plain(args[j])) && !Readable(args)
    ensures Run(IDLE, ToBytes(MultiBulk(args)) + rest) == ([], Died)
  {
    var p := [STAR] + FormatNat(|args|);
    var more := ArgsBytes(args) + rest;
    Regroup(p, CRLF, ArgsBytes(args));
    Regroup(p, CRLF + ArgsBytes(args), rest);
    Regroup(CRLF, ArgsBytes(args), rest);
    DigitsHaveNoLF(STAR, |args|);
    StepLine(IDLE, p, more);
    Cut(p, more);
    ParseUintAfterFormat(|args|, MAX_UINT32);
    assert Values(args)[..0] == [];
    RunQuietly(IDLE, p + (CRLF + more), Midway(args, 0), more);
    assert args[0..] == args;
    UnreadableKills(args, 0, rest);
  }

  lemma {:induction false} UnreadableStreamDies(ms: seq<Message>)
    requires forall i :: 0 <= i < |ms| ==> 0 < |ms[i]| <= MAX_UINT32 && forall j :: 0 <= j < |ms[i]| ==> Plain(ms[i][j])
    requires exists i :: 0 <= i < |ms| && !Readable(ms[i])
    ensures Run(IDLE, Stream(ms)).1 == Died
  {
    var rest := Stream(ms[1..]);
    if Readable(ms[0]) {
      var i :| 0 <= i < |ms| && !Readable(ms[i]);
      assert ms[1..][i - 1] == ms[i];
      UnreadableStreamDies(ms[1..]);
      MessageRead(ms[0], rest);
    } else {
      UnreadableMessageKills(ms[0], rest);
    }
  }

  /** Argument lengths that fit Go's int, with room for the line break. */
  predicate FitsMemory(ms: seq<Message>) {
    forall i, j :: 0 <= i < |ms| && 0 <= j < |ms[i]| && ms[i][j].Some? ==> |ms[i][j].value| + 2 <= MAX_INT64
  }

  /**
   Printing and parsing back: the messages are received as they were, with the parser idle at the end, if and only
   if every message is readable.
   */
  lemma {:induction false} ReceivedExactly(ms: seq<Message>)
    requires FitsMemory(ms)
    ensures var (sent, end) := Run(IDLE, Stream(ms));
            (Received(sent) == ms && end == Closed(IDLE, [])) <==> forall i :: 0 <= i < |ms| ==> Readable(ms[i])
  {
    var (sent, end) := Run(IDLE, Stream(ms));
    if forall i :: 0 <= i < |ms| ==> Readable(ms[i]) {
      StreamRead(ms);
    } else if forall i :: 0 <= i < |ms| ==> Sendable(ms[i]) {
      UnreadableStreamDies(ms);
    } else {
      RunStaysClean(IDLE, Stream(ms));
      ReceivedIsClean(sent);
    }
  }

  /** Everything sent for readable messages, leftover line breaks included. */
  function Expected(ms: seq<Message>): seq<Payload>
    requires forall i :: 0 <= i < |ms| ==> ms[i] != []
  {
    if ms == [] then [] else [Data(MultiBulk(ms[0]))] + Leftover(ms[0]) + Expected(ms[1..])
  }

  lemma {:induction false} StreamSent(ms: seq<Message>)
    requires forall i :: 0 <= i < |ms| ==> ms[i] != [] && Readable(ms[i])
    ensures Run(IDLE, Stream(ms)).0 == Expected(ms)
  {
    if ms != [] {
      StreamSent(ms[1..]);
      MessageRead(ms[0], Stream(ms[1..]));
    }
  }

  predicate EndsEmpty(m: Message) {
    m != [] && m[|m| - 1] == Some([])
  }

  lemma {:induction false} ExpectedLength(ms: seq<Message>)
    requires forall i :: 0 <= i < |ms| ==> ms[i] != []
    ensures |Expected(ms)| >= |ms|
    ensures |Expected(ms)| == |ms| <==> forall i :: 0 <= i < |ms| ==> !EndsEmpty(ms[i])
    ensures |Expected(ms)| == |ms| ==> forall i :: 0 <= i < |ms| ==> Expected(ms)[i] == Data(MultiBulk(ms[i]))
  {
    if ms != [] {
      ExpectedLength(ms[1..]);
      assert forall i :: 0 < i < |ms| ==> ms[i] == ms[1..][i - 1];
    }
  }

  /** One payload per message. */
  function Datas(ms: seq<Message>): (r: seq<Payload>)
    ensures |r| == |ms| && forall i :: 0 <= i < |ms| ==> r[i] == Data(MultiBulk(ms[i]))
  {
    seq(|ms|, i requires 0 <= i < |ms| => Data(MultiBulk(ms[i])))
  }

  lemma {:induction false} ReceivedDatas(ms: seq<Message>)
    ensures Received(Datas(ms)) == ms
  {
    if ms != [] {
      ReceivedDatas(ms[1..]);
      assert Datas(ms)[1..] == Datas(ms[1..]);
      assert ms == [ms[0]] + ms[1..];
    }
  }

  lemma {:induction false} ExpectedIsDatas(ms: seq<Message>)
    requires forall i :: 0 <= i < |ms| ==> ms[i] != []
    ensures Expected(ms) == Datas(ms) <==> forall i :: 0 <= i < |ms| ==> !EndsEmpty(ms[i])
  {
    ExpectedLength(ms);
  }

  /** The payloads are the messages and nothing else exactly when, in addition, no message ends in an empty argument. */
  lemma {:induction false} SentExactly(ms: seq<Message>)
    requires FitsMemory(ms)
    ensures Run(IDLE, Stream(ms)) == (Datas(ms), Closed(IDLE, []))
            <==> forall i :: 0 <= i < |ms| ==> Readable(ms[i]) && !EndsEmpty(ms[i])
  {
    ReceivedDatas(ms);
    ReceivedExactly(ms);
    if forall i :: 0 <= i < |ms| ==> Readable(ms[i]) {
      StreamSent(ms);
      ExpectedIsDatas(ms);
    }
  }

  /** A command with the arguments "SET", "", "v" is not readable: its empty key kills the parser that reads it. */
  lemma {:induction false} EmptyKeyIsLost()
    ensures Run(IDLE, Stream([[Some([83, 69, 84]), Some([]), Some([118])]])).1 == Died
  {
    var m := [Some([83, 69, 84]), Some([]), Some([118])];
    assert m[1] == Some([]) && !Readable(m);
    assert [m][0] == m;
    UnreadableStreamDies([m]);
  }

  // ----- single lines -----

  /**
   What a line outside a message makes the parser send: headers that are no counts or lengths, an empty value and
   other negative lengths are errors, an absent value is the null reply, and a line of no known kind is nothing.
   */
  lemma {:induction false} IdleLines(kind: byte, p: bytes, rest: bytes)
    requires LF !in [kind] + p
    ensures var line := [kind] + p;
            var error := Next(IDLE, rest, [Err(Ascii("Protocol error") + (line + CRLF))]);
            var o := Step(IDLE, line + (CRLF + rest));
            && (kind == 42 && ParseUint(p, 0xffff_ffff) == None ==> o == error)
            && (kind == 42 && ParseUint(p, 0xffff_ffff) == Some(0) ==> o == Next(IDLE, rest, [Data(EmptyMultiBulk)]))
            && (kind == 36 && ParseInt(p) == None ==> o == error)
            && (kind == 36 && ParseInt(p).Some? && ParseInt(p).value <= 0 && ParseInt(p).value != -1 ==> o == error)
            && (kind == 36 && ParseInt(p) == Some(-1) ==> o == Next(IDLE, rest, [Data(NullBulk)]))
            && (kind == 43 ==> o == Next(IDLE, rest, [Data(Status(p))]))
            && (kind == 45 ==> o == Next(IDLE, rest, [Data(Error(p))]))
            && (kind == 58 && ParseInt(p) == None ==> o == Next(IDLE, rest, [Err(Ascii("protocol error: ") + (line + CRLF))]))
            && (kind == 58 && ParseInt(p).Some? ==> o == Next(IDLE, rest, [Data(Int(ParseInt(p).value))]))
            && (kind !in {42, 36, 43, 45, 58} ==> o == Next(IDLE, rest, [NilData]))
  {
    var line := [kind] + p;
    HeaderTexts();
    StepLine(IDLE, line, rest);
    Cut(line, rest);
    assert line[1..] == p && (line + CRLF)[0] == kind;
  }

  /** The state behind one more argument, and what is sent when it was the last. */
  function WithArg(st: ReadState, a: bytes, rest: bytes): Outcome {
    if |st.args| + 1 != st.expected then Next(st.(args := st.args + [a]), rest, [])
    else if st.msgType == 42 then Next(IDLE, rest, [Data(MultiBulk(Strings(st.args + [a])))])
    else Next(IDLE, rest, [Data(Bulk(Some((st.args + [a])[0])))])
  }

  /**
   A line inside a message: a length is for the argument behind it, or for an empty argument when it is not positive, a
   length that is no integer drops the message, an empty line is fatal, and any other line is an argument itself.
   */
  lemma {:induction false} MessageLines(st: ReadState, p: bytes, rest: bytes)
    requires st.multi && st.bulkLen == 0 && LF !in p && |st.args| < st.expected && st.msgType in {42, 36}
    ensures var o := Step(st, p + (CRLF + rest));
            && (p == [] ==> o == Panic)
            && (p != [] && p[0] == 36 ==>
                  match ParseInt(p[1..])
                  case None => o == Next(IDLE, rest, [Err(Ascii("Protocol error") + (p + CRLF))])
                  case Some(n) => o == if n > 0 then Next(st.(bulkLen := n), rest, []) else WithArg(st, [], rest))
            && (p != [] && p[0] != 36 ==> o == WithArg(st, p, rest))
  {
    HeaderTexts();
    StepLine(st, p, rest);
    Cut(p, rest);
  }
}
