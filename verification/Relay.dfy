/**
 A connection from one node to another: what becomes of a command line that one node prints and the other parses, and
 of the reply on its way back.

 The client of resp/client/client.go hands the payloads that its parser sends to the waiting requests one by one, in
 order. A reply that is not exactly one payload therefore shifts all later replies on that connection.
 */
module Relay {
  import opened Bytes
  import opened Decimal
  import opened Resp
  import opened RoundTrip

  const TIMED_OUT: bytes := [115, 101, 114, 118, 101, 114, 32] + [116, 105, 109, 101, 32] + [111, 117, 116]

  // ----- reading a stream in pieces -----

  lemma {:induction false} LineEndStays(a: bytes, b: bytes)
    requires LineEnd(a) > 0
    ensures LineEnd(a + b) == LineEnd(a)
  {
    if a[0] != LF {
      LineEndStays(a[1..], b);
      assert (a + b)[1..] == a[1..] + b;
    }
  }

  lemma {:induction false} LineStepStays(st: ReadState, a: bytes, b: bytes)
    requires st.bulkLen == 0 && !Step(st, a).IOError?
    ensures Step(st, a + b) == match Step(st, a)
              case Next(st', rest, sent) => Next(st', rest + b, sent)
              case o => o
  {
    var n := LineEnd(a);
    LineEndStays(a, b);
    assert (a + b)[..n] == a[..n] && (a + b)[n..] == a[n..] + b;
    if n >= 2 { assert (a + b)[n - 2] == a[n - 2]; }
  }

  /** A round that has all the bytes it needs does not look at later ones. */
  lemma {:induction false} StepStays(st: ReadState, a: bytes, b: bytes)
    requires !Step(st, a).IOError?
    ensures Step(st, a + b) == match Step(st, a)
              case Next(st', rest, sent) => Next(st', rest + b, sent)
              case o => o
  {
    if st.bulkLen == 0 {
      LineStepStays(st, a, b);
    } else if 0 < st.bulkLen && st.bulkLen + 2 <= MAX_INT64 {
      var n := st.bulkLen + 2;
      assert (a + b)[..n] == a[..n] && (a + b)[n..] == a[n..] + b;
    }
  }

  /** What the parser does with the rest of a stream, given how it ended on the first part. */
  function GoOn(sent: seq<Payload>, end: End, more: bytes): (seq<Payload>, End) {
    match end
    case Died => (sent, Died)
    case Closed(st, unread) => (sent + Run(st, unread + more).0, Run(st, unread + more).1)
  }

  lemma {:induction false} RunInPieces(st: ReadState, a: bytes, b: bytes)
    ensures Run(st, a + b) == GoOn(Run(st, a).0, Run(st, a).1, b)
    decreases |a|
  {
    match Step(st, a)
    case IOError =>
      assert [] + Run(st, a + b).0 == Run(st, a + b).0;
    case Panic => StepStays(st, a, b);
    case Next(st', rest, sent) =>
      StepStays(st, a, b);
      RunInPieces(st', rest, b);
      var (more, end) := Run(st', rest);
      if end.Closed? { Regroup(sent, more, Run(end.state, end.unread + b).0); }
  }

  // ----- one reply -----

  /** Some array or bulk is being read. */
  predicate InMessage(st: ReadState) {
    st.multi && (st.msgType == STAR || st.msgType == DOLLAR)
  }

  lemma {:induction false} MessageIsNotNil(st: ReadState, input: bytes)
    requires InMessage(st)
    ensures var sent := Run(st, input).0; sent != [] ==> sent[0] != NilData
    decreases |input|
  {
    var o := Step(st, input);
    if o.Next? && o.sent == [] {
      MessageIsNotNil(o.state, o.rest);
    }
  }

  /** The first payload of a printed reply, if there is any, is no empty payload. */
  lemma {:induction false} FirstIsNotNil(r: Reply)
    ensures var sent := Run(IDLE, ToBytes(r)).0; sent != [] ==> sent[0] != NilData
  {
    FirstByte(r);
    BeginsWithAReply(ToBytes(r));
  }

  lemma {:induction false} FirstByte(r: Reply)
    ensures ToBytes(r) != [] && ToBytes(r)[0] in [STAR, DOLLAR, PLUS, MINUS, COLON]
  {
  }

  lemma {:induction false} BeginsWithAReply(input: bytes)
    requires input != [] && input[0] in [STAR, DOLLAR, PLUS, MINUS, COLON]
    ensures var sent := Run(IDLE, input).0; sent != [] ==> sent[0] != NilData
  {
    var o := Step(IDLE, input);
    if o.Next? && o.sent == [] {
      MessageIsNotNil(o.state, o.rest);
    }
  }

  /** The reply that a request on an idle connection gets: what its first payload says, or the time-out. */
  function Carried(r: Reply): Reply {
    var sent := Run(IDLE, ToBytes(r)).0;
    FirstIsNotNil(r);
    if sent == [] then Error(TIMED_OUT)
    else match sent[0]
      case Data(x) => x
      case Err(text) => Error(text)
  }

  /** The reply is one payload, and the parser is idle behind it. */
  predicate OnePayload(r: Reply) {
    var (sent, end) := Run(IDLE, ToBytes(r));
    |sent| == 1 && end == Closed(IDLE, [])
  }

  // ----- a whole connection -----

  /** The bytes of the replies one after the other. */
  function Replies(rs: seq<Reply>): bytes {
    if rs == [] then [] else Replies(rs[..|rs| - 1]) + ToBytes(rs[|rs| - 1])
  }

  /** The payloads of the first `n` replies, and how the client's parser stands behind them. */
  function Payloads(rs: seq<Reply>, n: nat): (seq<Payload>, End)
    requires n <= |rs|
  {
    Run(IDLE, Replies(rs[..n]))
  }

  /**
   The answer to request `i`: requests are made one after the other, and the payloads are handed to them in order, also
   to those that have timed out. None is a nil reply.
   */
  function AnswerTo(rs: seq<Reply>, i: nat): Option<Reply>
    requires i < |rs|
  {
    var sent := Payloads(rs, i + 1).0;
    if i >= |sent| then Some(Error(TIMED_OUT))
    else match sent[i]
      case Data(x) => Some(x)
      case Err(text) => Some(Error(text))
      case NilData => None
  }

  /** As many payloads as requests so far, and nothing half read. */
  predicate InStep(rs: seq<Reply>, n: nat)
    requires n <= |rs|
  {
    |Payloads(rs, n).0| == n && Payloads(rs, n).1 == Closed(IDLE, [])
  }

  lemma {:induction false} OneMoreReply(rs: seq<Reply>, n: nat)
    requires n < |rs| && InStep(rs, n)
    ensures Payloads(rs, n + 1) == (Payloads(rs, n).0 + Run(IDLE, ToBytes(rs[n])).0, Run(IDLE, ToBytes(rs[n])).1)
  {
    assert rs[..n + 1][..n] == rs[..n];
    RunInPieces(IDLE, Replies(rs[..n]), ToBytes(rs[n]));
    assert [] + ToBytes(rs[n]) == ToBytes(rs[n]);
  }

  /** A request on a connection in step gets what its own reply says. */
  lemma {:induction false} InStepAnswers(rs: seq<Reply>, i: nat)
    requires i < |rs| && InStep(rs, i)
    ensures AnswerTo(rs, i) == Some(Carried(rs[i]))
  {
    OneMoreReply(rs, i);
    FirstIsNotNil(rs[i]);
  }

  lemma {:induction false} OnesStayInStep(rs: seq<Reply>, n: nat)
    requires n <= |rs| && forall j :: 0 <= j < n ==> OnePayload(rs[j])
    ensures InStep(rs, n)
  {
    if n == 0 {
      assert rs[..0] == [];
      RunOnNothing();
    } else {
      OnesStayInStep(rs, n - 1);
      OneMoreInStep(rs, n - 1);
    }
  }

  /** The connection stays in step up to a request exactly when every earlier reply was one payload. */
  lemma {:induction false} InStepExactly(rs: seq<Reply>, n: nat)
    requires n <= |rs|
    ensures (forall k :: 0 <= k <= n ==> InStep(rs, k)) <==> forall j :: 0 <= j < n ==> OnePayload(rs[j])
  {
    if forall k :: 0 <= k <= n ==> InStep(rs, k) {
      forall j | 0 <= j < n ensures OnePayload(rs[j]) {
        assert InStep(rs, j) && InStep(rs, j + 1);
        OneMoreInStep(rs, j);
      }
    }
    if forall j :: 0 <= j < n ==> OnePayload(rs[j]) {
      forall k | 0 <= k <= n ensures InStep(rs, k) { OnesStayInStep(rs, k); }
    }
  }

  lemma {:induction false} OneMoreInStep(rs: seq<Reply>, n: nat)
    requires n < |rs| && InStep(rs, n)
    ensures InStep(rs, n + 1) <==> OnePayload(rs[n])
  {
    OneMoreReply(rs, n);
  }

  // ----- requests -----

  /** The other node receives a line that can be read, and runs it once; its parser dies on any other. */
  lemma {:induction false} RequestArrives(line: seq<bytes>)
    requires Sendable(Strings(line)) && forall i :: 0 <= i < |line| ==> |line[i]| + 2 <= MAX_INT64
    ensures var (sent, end) := Run(IDLE, ToBytes(MultiBulk(Strings(line))));
            if Readable(Strings(line)) then Received(sent) == [Strings(line)] && end == Closed(IDLE, [])
            else sent == [] && end == Died
  {
    var m := Strings(line);
    assert ToBytes(MultiBulk(m)) + [] == ToBytes(MultiBulk(m));
    assert forall i :: 0 <= i < |m| ==> Plain(m[i]);
    if Readable(m) {
      MessageRead(m, []);
      assert Run(IDLE, []) == ([], Closed(IDLE, []));
      ReceivedHead(m, []);
      assert [m] + [] == [m] && Received([]) == [];
    } else {
      UnreadableMessageKills(m, []);
    }
  }

  // ----- replies that come through -----

  /** An argument that comes through anywhere in a message. */
  predicate CleanArg(a: bytes) {
    a != [] && a[0] != DOLLAR && |a| + 2 <= MAX_INT64
  }

  /** The reply arrives as the given one, and leaves the connection in step. */
  predicate Arrives(r: Reply, as_: Reply) {
    Run(IDLE, ToBytes(r)) == ([Data(as_)], Closed(IDLE, []))
  }

  lemma {:induction false} ArrivesIs(r: Reply, as_: Reply)
    requires Arrives(r, as_)
    ensures Carried(r) == as_ && OnePayload(r)
  {
  }

  /** Nothing is left to read. */
  lemma {:induction false} RunOnNothing()
    ensures Run(IDLE, []) == ([], Closed(IDLE, []))
  {
  }

  lemma {:induction false} CarriedOneLine(p: bytes, reply: Reply)
    requires LF !in p && Process(IDLE, p + CRLF, []) == Next(IDLE, [], [Data(reply)])
    ensures Run(IDLE, p + CRLF) == ([Data(reply)], Closed(IDLE, []))
  {
    assert CRLF + [] == CRLF;
    StepLine(IDLE, p, []);
    RunStep(IDLE, p + CRLF);
    RunOnNothing();
    assert [Data(reply)] + [] == [Data(reply)];
  }

  /** An array of clean arguments arrives as it was sent; the empty array arrives as a reply of another type. */
  lemma {:induction false} ArrayCarried(q: seq<bytes>)
    requires |q| <= MAX_UINT32 && forall i :: 0 <= i < |q| ==> CleanArg(q[i])
    ensures Arrives(MultiBulk(Strings(q)), if q == [] then EmptyMultiBulk else MultiBulk(Strings(q)))
  {
    if q == [] {
      EmptyArrayCarried();
    } else {
      var m := Strings(q);
      assert forall i :: 0 <= i < |m| ==> Plain(m[i]) && m[i] != Some([]);
      var ms := [m];
      assert ms[0] == m && ms[1..] == [];
      assert Stream(ms) == ToBytes(MultiBulk(m)) + [] == ToBytes(MultiBulk(m));
      SentExactly(ms);
      assert Datas(ms) == [Data(MultiBulk(m))];
    }
  }

  lemma {:induction false} EmptyArrayCarried()
    ensures Arrives(MultiBulk(Strings([])), EmptyMultiBulk)
  {
    var p := [STAR, 48];
    assert Strings([]) == [] && FormatNat(0) == [48];
    assert ToBytes(MultiBulk([])) == [STAR] + [48] + CRLF + [] == p + CRLF;
    Cut(p, []);
    assert p[1..] == [48] && (p + CRLF)[..2] == p;
    ParseUintAfterFormat(0, MAX_UINT32);
    CarriedOneLine(p, EmptyMultiBulk);
  }

  lemma {:induction false} IntCarried(n: int)
    requires MIN_INT64 <= n <= MAX_INT64
    ensures Arrives(Int(n), Int(n))
  {
    var p := [COLON] + FormatInt(n);
    IntTextHasNoLF(n);
    IntRead(n);
    CarriedOneLine(p, Int(n));
  }

  lemma {:induction false} IntRead(n: int)
    requires MIN_INT64 <= n <= MAX_INT64
    ensures Process(IDLE, [COLON] + FormatInt(n) + CRLF, []) == Next(IDLE, [], [Data(Int(n))])
  {
    var p := [COLON] + FormatInt(n);
    Cut(p, []);
    assert CRLF + [] == CRLF && p[1..] == FormatInt(n);
    ParseIntAfterFormat(n);
  }

  lemma {:induction false} IntTextHasNoLF(n: int)
    ensures LF !in [COLON] + FormatInt(n)
  {
    if n < 0 { FormatNatIsDigits(-n); } else { FormatNatIsDigits(n); }
  }

  lemma {:induction false} ErrorCarried(t: bytes)
    requires LF !in t
    ensures Arrives(Error(t), Error(t))
  {
    var p := [MINUS] + t;
    assert p[1..] == t && (p + CRLF)[..|p|] == p;
    CarriedOneLine(p, Error(t));
  }

  lemma {:induction false} StatusCarried(t: bytes)
    requires LF !in t
    ensures Arrives(Status(t), Status(t))
  {
    var p := [PLUS] + t;
    assert p[1..] == t && (p + CRLF)[..|p|] == p;
    CarriedOneLine(p, Status(t));
  }

  /** A value arrives as it was sent, and so does the reply for an absent one. */
  lemma {:induction false} BulkCarried(a: bytes)
    requires CleanArg(a)
    ensures Arrives(Bulk(Some(a)), Bulk(Some(a)))
  {
    BulkArrives(a, []);
    RunOnNothing();
    assert ToBytes(Bulk(Some(a))) + [] == ToBytes(Bulk(Some(a))) == ArgBytes(Some(a));
    assert [Data(Bulk(Some(a)))] + [] == [Data(Bulk(Some(a)))];
  }

  lemma {:induction false} NullCarried()
    ensures Arrives(NullBulk, NullBulk)
  {
    var p: bytes := [DOLLAR, MINUS, 49];
    assert FormatInt(-1) == [MINUS] + FormatNat(1) == [MINUS, 49];
    ParseIntAfterFormat(-1);
    Cut(p, []);
    assert p[1..] == [MINUS, 49] && (p + CRLF)[..3] == p;
    assert ToBytes(NullBulk) == p + CRLF;
    CarriedOneLine(p, NullBulk);
  }

  // ----- a reply that does not -----

  /**
   An empty value: its header is an error, and the line break behind it an empty payload that goes to the next request.
   */
  lemma {:induction false} EmptyBulkShifts()
    ensures Run(IDLE, ToBytes(Bulk(Some([])))) == ([Err(BAD_HEADER + [DOLLAR, 48] + CRLF), NilData], Closed(IDLE, []))
    ensures Carried(Bulk(Some([]))) == Error(BAD_HEADER + [DOLLAR, 48] + CRLF) && !OnePayload(Bulk(Some([])))
  {
    var p: bytes, e := [DOLLAR, 48], Err(BAD_HEADER + [DOLLAR, 48] + CRLF);
    assert FormatNat(0) == [48];
    var empty: bytes := [];
    assert ToBytes(Bulk(Some(empty))) == p + (CRLF + CRLF);
    StepLine(IDLE, p, CRLF);
    Cut(p, CRLF);
    assert p[1..] == [48];
    ParseIntAfterFormat(0);
    assert BAD_HEADER + (p + CRLF) == BAD_HEADER + [DOLLAR, 48] + CRLF;
    assert Step(IDLE, p + (CRLF + CRLF)) == Next(IDLE, CRLF, [e]);
    RunStep(IDLE, p + (CRLF + CRLF));
    assert CRLF + [] == CRLF;
    LineBreakAlone([]);
    RunOnNothing();
    assert [e] + ([NilData] + []) == [e, NilData];
  }
}
