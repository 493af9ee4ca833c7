/**
 The RESP printer of resp/reply/ and the stream parser of resp/parser/parser.go.

 The parser is a state machine over a byte stream: `Step` is one round of its loop, `Run` all rounds until the
 input ends or the parser panics.
 */
module Resp {
  import opened Bytes
  import opened Decimal

  const CR: byte := 13
  const LF: byte := 10
  const STAR: byte := 42
  const DOLLAR: byte := 36
  const COLON: byte := 58
  const CRLF: bytes := [CR, LF]

  // ----- replies and their bytes -----

  datatype Reply =
    | MultiBulk(args: seq<Option<bytes>>)
    | EmptyMultiBulk
    | Bulk(arg: Option<bytes>)
    | NullBulk
    | Status(text: bytes)
    | Error(text: bytes)
    | Int(code: int)

  /** One array element; a nil slice is printed as the null bulk. */
  function ArgBytes(arg: Option<bytes>): bytes {
    match arg
    case None => [DOLLAR, MINUS, 49] + CRLF
    case Some(a) => [DOLLAR] + FormatNat(|a|) + CRLF + a + CRLF
  }

  function ArgsBytes(args: seq<Option<bytes>>): bytes {
    if args == [] then [] else ArgBytes(args[0]) + ArgsBytes(args[1..])
  }

  function ToBytes(r: Reply): bytes {
    match r
    case MultiBulk(args) => [STAR] + FormatNat(|args|) + CRLF + ArgsBytes(args)
    case EmptyMultiBulk => [STAR, 48] + CRLF
    case Bulk(None) => [DOLLAR, MINUS, 49]
    case Bulk(Some(a)) => [DOLLAR] + FormatNat(|a|) + CRLF + a + CRLF
    case NullBulk => [DOLLAR, MINUS, 49] + CRLF
    case Status(t) => [PLUS] + t + CRLF
    case Error(t) => [MINUS] + t + CRLF
    case Int(n) => [COLON] + FormatInt(n) + CRLF
  }

  lemma {:induction false} Regroup<T>(a: seq<T>, b: seq<T>, c: seq<T>)
    ensures (a + b) + c == a + (b + c)
  {
  }

  lemma {:induction false} TakeOneMore<T>(s: seq<T>, i: nat)
    requires i < |s|
    ensures s[..i + 1] == s[..i] + [s[i]]
    ensures i > 0 ==> s[..i + 1][0] == s[0] && s[..i + 1][1..] == s[1..][..i] && s[..i][0] == s[0] && s[..i][1..] == s[1..][..i - 1]
    ensures i == 0 ==> s[..1] == [s[0]] && s[..0] == [] && s[..1][1..] == []
  {
  }

  lemma {:induction false} ArgsBytesOne(arg: Option<bytes>)
    ensures ArgsBytes([arg]) == ArgsBytes([]) + ArgBytes(arg)
  {
    assert [arg][1..] == [];
    assert ArgBytes(arg) + [] == [] + ArgBytes(arg);
  }

  lemma {:induction false} ArgsBytesSnoc(args: seq<Option<bytes>>, i: nat)
    requires i < |args|
    ensures ArgsBytes(args[..i + 1]) == ArgsBytes(args[..i]) + ArgBytes(args[i])
    decreases i
  {
    TakeOneMore(args, i);
    if i == 0 {
      ArgsBytesOne(args[0]);
    } else {
      ArgsBytesSnoc(args[1..], i - 1);
      Regroup(ArgBytes(args[0]), ArgsBytes(args[1..][..i - 1]), ArgBytes(args[i]));
    }
  }

  /** The printer: a header, then the elements appended to a buffer one by one. */
  method MultiBulkToBytes(args: seq<Option<bytes>>) returns (buf: bytes)
    ensures buf == ToBytes(MultiBulk(args))
  {
    buf := AppendArgs([STAR] + FormatNat(|args|) + CRLF, args);
  }

  method AppendArgs(header: bytes, args: seq<Option<bytes>>) returns (buf: bytes)
    ensures buf == header + ArgsBytes(args)
  {
    buf := header;
    for i := 0 to |args|
      invariant buf == header + ArgsBytes(args[..i])
    {
      var piece := ArgBytes(args[i]);
      ArgsBytesSnoc(args, i);
      Regroup(header, ArgsBytes(args[..i]), piece);
      buf := buf + piece;
    }
    assert args[..|args|] == args;
  }

  /** One reply of each kind, as it goes over the wire. */
  lemma {:induction false} PrintedReplies()
    ensures ToBytes(Status([79, 75])) == [43, 79, 75, 13, 10] && ToBytes(Error([69])) == [45, 69, 13, 10]
    ensures ToBytes(EmptyMultiBulk) == [42, 48, 13, 10]
    ensures ToBytes(Bulk(None)) == [36, 45, 49] && ToBytes(NullBulk) == [36, 45, 49, 13, 10]
  {
  }

  lemma {:induction false} PrintedInt()
    ensures ToBytes(Int(-7)) == [58, 45, 55, 13, 10]
  {
    assert FormatInt(-7) == [45, 55];
  }

  lemma {:induction false} PrintedBulk(a: bytes)
    requires |a| == 3
    ensures ToBytes(Bulk(Some(a))) == [36, 51, 13, 10] + a + [13, 10]
  {
    assert FormatNat(3) == [51];
  }

  /** An array of a value of three bytes and a nil slice. */
  lemma {:induction false} PrintedArray(a: bytes)
    requires |a| == 3
    ensures ToBytes(MultiBulk([Some(a), None])) == [42, 50, 13, 10] + ([36, 51, 13, 10] + a + [13, 10] + [36, 45, 49, 13, 10])
  {
    var args: seq<Option<bytes>> := [Some(a), None];
    assert args[1..] == [None] && ArgsBytes(args[1..]) == [36, 45, 49, 13, 10] + [];
    assert FormatNat(2) == [50] && FormatNat(3) == [51];
    PrintedBulk(a);
    assert ArgsBytes(args) == ArgBytes(Some(a)) + [36, 45, 49, 13, 10];
  }

  // ----- the parser -----

  /** An error payload carries the text of the Go error. */
  datatype Payload = Data(reply: Reply) | NilData | Err(text: bytes)

  const BAD_HEADER: bytes := [80, 114, 111, 116, 111, 99, 111, 108, 32] + [101, 114, 114, 111, 114]
  const BAD_NUMBER: bytes := [112, 114, 111, 116, 111, 99, 111, 108, 32] + [101, 114, 114, 111, 114, 58, 32]
  const BAD_LINE: bytes := [105, 110, 118, 97, 108, 105, 100, 32] + [108, 105, 110, 101, 32] +
    [116, 101, 114, 109, 105, 110, 97, 116, 111, 114]
  const BAD_BULK: bytes := [105, 110, 118, 97, 108, 105, 100, 32] + [98, 117, 108, 107, 32] + [108, 105, 110, 101, 32] +
    [116, 101, 114, 109, 105, 110, 97, 116, 111, 114]

  lemma {:induction false} HeaderTexts()
    ensures BAD_HEADER == Ascii("Protocol error") && BAD_NUMBER == Ascii("protocol error: ")
  {
  }

  lemma {:induction false} TerminatorTexts()
    ensures BAD_LINE == Ascii("invalid ") + Ascii("line ") + Ascii("terminator")
    ensures BAD_BULK == Ascii("invalid ") + Ascii("bulk ") + Ascii("line ") + Ascii("terminator")
  {
    assert Ascii("invalid ") == [105, 110, 118, 97, 108, 105, 100, 32];
    assert Ascii("terminator") == [116, 101, 114, 109, 105, 110, 97, 116, 111, 114];
    assert Ascii("line ") == [108, 105, 110, 101, 32] && Ascii("bulk ") == [98, 117, 108, 107, 32];
  }

  datatype ReadState = ReadState(multi: bool, expected: nat, msgType: byte, args: seq<bytes>, bulkLen: int)

  const IDLE := ReadState(false, 0, 0, [], 0)

  const MAX_UINT32 := 0xffff_ffff

  /** `Next` carries the new state, the unread input and what was sent; a read error ends the parser, a panic kills it. */
  datatype Outcome = Next(state: ReadState, rest: bytes, sent: seq<Payload>) | IOError | Panic

  /** The index behind the first line feed, or 0. */
  function LineEnd(s: bytes): (n: nat)
    ensures n <= |s| && (n > 0 ==> s[n - 1] == LF)
  {
    if s == [] then 0 else if s[0] == LF then 1 else
      var n := LineEnd(s[1..]);
      if n == 0 then 0 else n + 1
  }

  predicate IsDone(st: ReadState) {
    st.expected > 0 && |st.args| == st.expected
  }

  function Strings(args: seq<bytes>): (r: seq<Option<bytes>>)
    ensures |r| == |args| && forall i :: 0 <= i < |r| ==> r[i] == Some(args[i])
  {
    seq(|args|, i requires 0 <= i < |args| => Some(args[i]))
  }

  /** What a complete line does in the current state. The line ends in CR LF. */
  function Process(st: ReadState, msg: bytes, rest: bytes): Outcome
    requires |msg| >= 2 && msg[|msg| - 2] == CR && msg[|msg| - 1] == LF
  {
    var body := msg[..|msg| - 2];
    if st.multi then
      if body == [] then Panic
      else if body[0] == DOLLAR then
        match ParseInt(body[1..])
        case None => Next(IDLE, rest, [Err(BAD_HEADER + msg)])
        case Some(n) => Deliver(if n <= 0 then st.(args := st.args + [[]], bulkLen := 0) else st.(bulkLen := n), rest)
      else Deliver(st.(args := st.args + [body]), rest)
    else if msg[0] == STAR then
      match ParseUint(body[1..], MAX_UINT32)
      case None => Next(IDLE, rest, [Err(BAD_HEADER + msg)])
      case Some(n) =>
        if n == 0 then Next(IDLE, rest, [Data(EmptyMultiBulk)])
        else Next(st.(msgType := STAR, multi := true, expected := n, args := []), rest, [])
    else if msg[0] == DOLLAR then
      match ParseInt(body[1..])
      case None => Next(IDLE, rest, [Err(BAD_HEADER + msg)])
      case Some(n) =>
        if n == -1 then Next(IDLE, rest, [Data(NullBulk)])
        else if n > 0 then
          Next(st.(bulkLen := n, msgType := DOLLAR, multi := true, expected := 1, args := []), rest, [])
        else Next(IDLE, rest, [Err(BAD_HEADER + msg)])
    else Next(IDLE, rest, [SingleLine(msg[0], body, msg)])
  }

  function SingleLine(kind: byte, body: bytes, msg: bytes): Payload
  {
    if kind == PLUS && body != [] then Data(Status(body[1..]))
    else if kind == MINUS && body != [] then Data(Error(body[1..]))
    else if kind == COLON && body != [] then
      match ParseInt(body[1..])
      case None => Err(BAD_NUMBER + msg)
      case Some(n) => Data(Int(n))
    else NilData
  }

  /** A message whose arguments are all there is sent, and the state starts over. */
  function Deliver(st: ReadState, rest: bytes): Outcome {
    if !IsDone(st) then Next(st, rest, [])
    else if st.msgType == STAR then Next(IDLE, rest, [Data(MultiBulk(Strings(st.args)))])
    else if st.msgType == DOLLAR then Next(IDLE, rest, [Data(Bulk(Some(st.args[0])))])
    else Next(IDLE, rest, [NilData])
  }

  /** One round: read a line, or as many bytes as the pending bulk length says, then process it. */
  function Step(st: ReadState, input: bytes): (o: Outcome)
    ensures o.Next? ==> |o.rest| < |input|
  {
    if st.bulkLen == 0 then
      var n := LineEnd(input);
      if n == 0 then IOError
      else if n == 1 then Panic
      else if input[n - 2] != CR then Next(IDLE, input[n..], [Err(BAD_LINE)])
      else Process(st, input[..n], input[n..])
    else if st.bulkLen < 0 || st.bulkLen + 2 > MAX_INT64 then Panic
    else
      var n := st.bulkLen + 2;
      if |input| < n then IOError
      else if input[n - 2] != CR || input[n - 1] != LF then Next(IDLE, input[n..], [Err(BAD_BULK)])
      else Process(st.(bulkLen := 0), input[..n], input[n..])
  }

  /** How the parser ends: at a read error in some state with some bytes unread, or in a panic. */
  datatype End = Closed(state: ReadState, unread: bytes) | Died

  /** Everything the parser sends before it ends, and how it ends. */
  function Run(st: ReadState, input: bytes): (seq<Payload>, End)
    decreases |input|
  {
    match Step(st, input)
    case IOError => ([], Closed(st, input))
    case Panic => ([], Died)
    case Next(st', rest, sent) => var (more, end) := Run(st', rest); (sent + more, end)
  }

  /** The endless loop of the parser goroutine. */
  method ParseIt(input: bytes) returns (sent: seq<Payload>, end: End)
    ensures (sent, end) == Run(IDLE, input)
  {
    var state, rest := IDLE, input;
    sent := [];
    while true
      invariant Run(IDLE, input).0 == sent + Run(state, rest).0 && Run(IDLE, input).1 == Run(state, rest).1
      decreases |rest|
    {
      assert sent + [] == sent;
      match Step(state, rest) {
        case IOError => return sent, Closed(state, rest);
        case Panic => return sent, Died;
        case Next(state', rest', out) =>
          assert sent + (out + Run(state', rest').0) == (sent + out) + Run(state', rest').0;
          state, rest := state', rest';
          sent := sent + out;
      }
    }
  }
}
