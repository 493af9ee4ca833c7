/**
 The append-only file of aof/aof.go: logging commands with SELECT lines in between, and replaying the file.
 */
module Aof {
  import opened Bytes
  import opened Decimal
  import opened Resp
  import opened RoundTrip

  /** A logged command line and the database it ran in. */
  datatype Entry = Entry(db: nat, line: seq<bytes>)

  const SELECT: bytes := [83, 69, 76, 69, 67, 84]
  const SELECT_LOWER: bytes := [115, 101, 108, 101, 99, 116]

  function LowerByte(b: byte): byte {
    if 65 <= b <= 90 then b + 32 else b
  }

  function Lower(s: bytes): (r: bytes)
    ensures |r| == |s| && forall i :: 0 <= i < |s| ==> r[i] == LowerByte(s[i])
  {
    seq(|s|, i requires 0 <= i < |s| => LowerByte(s[i]))
  }

  function SelectLine(db: nat): seq<bytes> {
    [SELECT, FormatNat(db)]
  }

  // ----- logging -----

  /** The lines written for the entries when the file stands at database `cur`. */
  function Lines(cur: int, ps: seq<Entry>): seq<seq<bytes>>
    decreases |ps|
  {
    if ps == [] then []
    else (if ps[0].db != cur then [SelectLine(ps[0].db)] else []) + [ps[0].line] + Lines(ps[0].db, ps[1..])
  }

  function CurrentAfter(cur: int, ps: seq<Entry>): int {
    if ps == [] then cur else ps[|ps| - 1].db
  }

  /** The lines as array messages. */
  function Messages(lines: seq<seq<bytes>>): (ms: seq<Message>)
    ensures |ms| == |lines| && forall i :: 0 <= i < |ms| ==> ms[i] == Strings(lines[i])
  {
    seq(|lines|, i requires 0 <= i < |lines| => Strings(lines[i]))
  }

  // ----- replaying -----

  /**
   The databases that the lines are run on: how many there are, and which line makes Exec panic after the entries that
   have been run. Exec recovers from the panic and answers nil, which the loading loop cannot take.
   */
  datatype Server = Server(dbs: nat, fails: (seq<Entry>, Entry) -> bool)

  /** Where a replay stands: the commands run so far, the selected database, and the handler's currentDB. */
  datatype Replay = Replay(run: seq<Entry>, selected: nat, current: int) | Crashed

  /** One received line. `srv` is what runs it. */
  function ReplayLine(r: Replay, line: seq<bytes>, srv: Server): Replay
    requires r.Replay? && line != []
  {
    if Lower(line[0]) == SELECT_LOWER then
      if |line| != 2 then Crashed
      else match ParseInt(line[1])
        case None => r
        case Some(d) => Replay(r.run, if 0 <= d < srv.dbs then d else r.selected, d)
    else
      var e := Entry(r.selected, line);
      if srv.fails(r.run, e) then Crashed else r.(run := r.run + [e])
  }

  function ReplayLines(r: Replay, lines: seq<seq<bytes>>, srv: Server): Replay
    requires forall i :: 0 <= i < |lines| ==> lines[i] != []
    decreases |lines|
  {
    if lines == [] || r.Crashed? then r
    else ReplayLines(ReplayLine(r, lines[0], srv), lines[1..], srv)
  }

  lemma {:induction false} ReplayConcat(r: Replay, a: seq<seq<bytes>>, b: seq<seq<bytes>>, srv: Server)
    requires forall i :: 0 <= i < |a| ==> a[i] != []
    requires forall i :: 0 <= i < |b| ==> b[i] != []
    ensures (forall i :: 0 <= i < |a + b| ==> (a + b)[i] != [])
    ensures ReplayLines(r, a + b, srv) == ReplayLines(ReplayLines(r, a, srv), b, srv)
    decreases |a|
  {
    if a == [] {
      assert a + b == b;
    } else if r.Replay? {
      assert (a + b)[0] == a[0] && (a + b)[1..] == a[1..] + b;
      ReplayConcat(ReplayLine(r, a[0], srv), a[1..], b, srv);
    }
  }

  /** The line is a SELECT, in letters of any case. */
  predicate IsSelect(name: bytes) {
    |name| == 6 && forall i :: 0 <= i < 6 ==> name[i] == Ascii("SELECT")[i] || name[i] == Ascii("select")[i]
  }

  lemma {:induction false} IsSelectExactly(name: bytes)
    ensures IsSelect(name) <==> Lower(name) == SELECT_LOWER
  {
    assert SELECT == Ascii("SELECT") && SELECT_LOWER == Ascii("select");
    if |name| == 6 {
      assert Lower(name) == SELECT_LOWER <==> forall i :: 0 <= i < 6 ==> LowerByte(name[i]) == SELECT_LOWER[i];
      forall i | 0 <= i < 6 ensures LowerByte(name[i]) == SELECT_LOWER[i] <==> name[i] == SELECT[i] || name[i] == SELECT_LOWER[i] {
        assert SELECT_LOWER[i] as int == SELECT[i] as int + 32 && 65 <= SELECT[i] <= 90;
      }
    }
  }

  /**
   What the loading loop makes of a SELECT: one without an index kills it, an index that is no integer is passed over,
   and one that the server does not have leaves the connection where it was, but not the handler's currentDB.
   */
  lemma {:induction false} SelectCases(r: Replay, line: seq<bytes>, srv: Server)
    requires r.Replay? && line != [] && IsSelect(line[0])
    ensures |line| != 2 ==> ReplayLine(r, line, srv) == Crashed
    ensures |line| == 2 && ParseInt(line[1]) == None ==> ReplayLine(r, line, srv) == r
    ensures |line| == 2 && ParseInt(line[1]).Some? ==>
              var d := ParseInt(line[1]).value;
              ReplayLine(r, line, srv) == Replay(r.run, if 0 <= d < srv.dbs then d else r.selected, d)
  {
    IsSelectExactly(line[0]);
  }

  /** Any other line is run in the selected database, and is the next one run unless it makes Exec panic. */
  lemma {:induction false} OtherLines(r: Replay, line: seq<bytes>, srv: Server)
    requires r.Replay? && line != [] && !IsSelect(line[0])
    ensures ReplayLine(r, line, srv) ==
              if srv.fails(r.run, Entry(r.selected, line)) then Crashed
              else Replay(r.run + [Entry(r.selected, line)], r.selected, r.current)
  {
    IsSelectExactly(line[0]);
  }

  /** Two lines of database 1 and one of database 0: a SELECT in front of the first and of the last. */
  lemma {:induction false} LogLayout(a: seq<bytes>, b: seq<bytes>, c: seq<bytes>)
    ensures Lines(0, [Entry(1, a), Entry(1, b), Entry(0, c)]) ==
              [[Ascii("SELECT"), [49]], a, b, [Ascii("SELECT"), [48]], c]
  {
    assert SELECT == Ascii("SELECT") && FormatNat(1) == [49] && FormatNat(0) == [48];
    var x, y, z := Entry(1, a), Entry(1, b), Entry(0, c);
    LinesHead(1, z, []);
    LinesHead(1, y, [z]);
    LinesHead(0, x, [y, z]);
    assert [x] + ([y] + ([z] + [])) == [x, y, z] && [y] + ([z] + []) == [y, z] && [z] + [] == [z];
    assert [x] + [y, z] == [x, y, z] && [y] + [z] == [y, z];
  }

  lemma {:induction false} LinesHead(cur: int, p: Entry, ps: seq<Entry>)
    ensures Lines(cur, [p] + ps) == (if p.db != cur then [SelectLine(p.db)] else []) + [p.line] + Lines(p.db, ps)
  {
    assert ([p] + ps)[1..] == ps;
  }

  /** A command line that the log may hold for a database of the server. */
  predicate Loggable(p: Entry, srv: Server) {
    p.line != [] && p.db < srv.dbs <= MAX_INT64 && Lower(p.line[0]) != SELECT_LOWER
  }

  lemma {:induction false} SelectReplays(r: Replay, db: nat, srv: Server)
    requires r.Replay? && db < srv.dbs <= MAX_INT64
    ensures ReplayLine(r, SelectLine(db), srv) == Replay(r.run, db, db)
  {
    assert Lower(SELECT) == SELECT_LOWER;
    ParseIntAfterFormat(db);
  }

  lemma {:induction false} LinesNonEmpty(cur: int, ps: seq<Entry>)
    requires forall i :: 0 <= i < |ps| ==> ps[i].line != []
    ensures forall i :: 0 <= i < |Lines(cur, ps)| ==> Lines(cur, ps)[i] != []
    decreases |ps|
  {
    if ps != [] { LinesNonEmpty(ps[0].db, ps[1..]); }
  }

  /** No entry makes Exec panic when the entries run one after the other behind `run`. */
  predicate Smooth(srv: Server, run: seq<Entry>, ps: seq<Entry>) {
    forall i :: 0 <= i < |ps| ==> !srv.fails(run + ps[..i], ps[i])
  }

  lemma {:induction false} SmoothTail(srv: Server, run: seq<Entry>, ps: seq<Entry>)
    requires ps != []
    ensures Smooth(srv, run, ps) <==> !srv.fails(run, ps[0]) && Smooth(srv, run + [ps[0]], ps[1..])
  {
    var t := ps[1..];
    assert run + ps[..0] == run;
    assert forall i :: 0 <= i < |t| ==> t[i] == ps[i + 1] && run + [ps[0]] + t[..i] == run + ps[..i + 1];
    if !srv.fails(run, ps[0]) && Smooth(srv, run + [ps[0]], t) {
      forall i | 0 <= i < |ps| ensures !srv.fails(run + ps[..i], ps[i]) {
        if i > 0 { assert !srv.fails(run + [ps[0]] + t[..i - 1], t[i - 1]); }
      }
    }
  }

  lemma {:induction false} SmoothBoth(srv: Server, run: seq<Entry>, a: seq<Entry>, b: seq<Entry>)
    ensures Smooth(srv, run, a + b) <==> Smooth(srv, run, a) && Smooth(srv, run + a, b)
    decreases |a|
  {
    if a == [] {
      assert a + b == b && run + a == run;
    } else {
      SmoothTail(srv, run, a + b);
      SmoothTail(srv, run, a);
      assert (a + b)[1..] == a[1..] + b;
      SmoothBoth(srv, run + [a[0]], a[1..], b);
      assert run + [a[0]] + a[1..] == run + a;
    }
  }

  /**
   From a point where file and handler agree on the database, every command is replayed where it was logged, unless
   one of them makes Exec panic: then the loading ends with the process.
   */
  lemma {:induction false} LinesReplay(r: Replay, ps: seq<Entry>, srv: Server)
    requires r.Replay? && r.selected == r.current && forall i :: 0 <= i < |ps| ==> Loggable(ps[i], srv)
    ensures forall i :: 0 <= i < |Lines(r.current, ps)| ==> Lines(r.current, ps)[i] != []
    ensures var d := CurrentAfter(r.current, ps);
            d >= 0 && ReplayLines(r, Lines(r.current, ps), srv) == if Smooth(srv, r.run, ps) then Replay(r.run + ps, d, d) else Crashed
    decreases |ps|
  {
    LinesNonEmpty(r.current, ps);
    if ps == [] {
      assert r.run + ps == r.run;
    } else {
      var p, rest := ps[0], Lines(ps[0].db, ps[1..]);
      var r' := Replay(r.run + [p], p.db, p.db);
      LinesNonEmpty(p.db, ps[1..]);
      HeadReplays(r, p, rest, srv);
      SmoothTail(srv, r.run, ps);
      LinesReplay(r', ps[1..], srv);
      assert r.run + [p] + ps[1..] == r.run + ps;
    }
  }

  lemma {:induction false} HeadReplays(r: Replay, p: Entry, rest: seq<seq<bytes>>, srv: Server)
    requires r.Replay? && r.selected == r.current && Loggable(p, srv) && forall i :: 0 <= i < |rest| ==> rest[i] != []
    ensures var all := (if p.db != r.current then [SelectLine(p.db)] else []) + [p.line] + rest;
            (forall i :: 0 <= i < |all| ==> all[i] != [])
            && ReplayLines(r, all, srv) ==
               if srv.fails(r.run, p) then Crashed else ReplayLines(Replay(r.run + [p], p.db, p.db), rest, srv)
  {
    if p.db != r.current {
      var all := [SelectLine(p.db)] + [p.line] + rest;
      assert all[1..] == [p.line] + rest && ([p.line] + rest)[1..] == rest;
      SelectReplays(r, p.db, srv);
      var r1 := Replay(r.run, p.db, p.db);
      assert ReplayLines(r, all, srv) == ReplayLines(r1, [p.line] + rest, srv);
      assert ReplayLines(r1, [p.line] + rest, srv) == ReplayLines(ReplayLine(r1, p.line, srv), rest, srv);
    } else {
      var all := [] + [p.line] + rest;
      assert all == [p.line] + rest && all[1..] == rest;
    }
  }

  // ----- the handler -----

  lemma {:induction false} StreamJoin(m: Message, t: seq<Message>, b: seq<Message>, tb: seq<Message>)
    requires Stream(tb) == Stream(t) + Stream(b)
    ensures Stream([m] + tb) == Stream([m] + t) + Stream(b)
  {
    assert ([m] + tb)[1..] == tb && ([m] + t)[1..] == t;
    Regroup(ToBytes(MultiBulk(m)), Stream(t), Stream(b));
  }

  lemma {:induction false} HeadTail<T>(a: seq<T>, b: seq<T>)
    requires a != []
    ensures [a[0]] + (a[1..] + b) == a + b && [a[0]] + a[1..] == a
  {
  }

  lemma {:induction false} StreamConcat(a: seq<Message>, b: seq<Message>)
    ensures Stream(a + b) == Stream(a) + Stream(b)
  {
    if a == [] {
      assert a + b == b;
    } else {
      StreamConcat(a[1..], b);
      StreamJoin(a[0], a[1..], b, a[1..] + b);
      HeadTail(a, b);
    }
  }

  /** The bytes of some lines. */
  function FileOf(lines: seq<seq<bytes>>): bytes {
    Stream(Messages(lines))
  }

  lemma {:induction false} FileOfConcat(a: seq<seq<bytes>>, b: seq<seq<bytes>>)
    ensures FileOf(a + b) == FileOf(a) + FileOf(b)
  {
    assert Messages(a + b) == Messages(a) + Messages(b);
    StreamConcat(Messages(a), Messages(b));
  }

  lemma {:induction false} FileOfOne(line: seq<bytes>)
    ensures FileOf([line]) == ToBytes(MultiBulk(Strings(line)))
  {
    var ms := Messages([line]);
    assert ms == [Strings(line)] && ms[1..] == [];
    assert Stream(ms[1..]) == [];
    assert ToBytes(MultiBulk(Strings(line))) + [] == ToBytes(MultiBulk(Strings(line)));
  }

  lemma {:induction false} LinesSnoc(cur: int, ps: seq<Entry>, i: nat)
    requires i < |ps|
    ensures var c := CurrentAfter(cur, ps[..i]);
            Lines(cur, ps[..i + 1]) == Lines(cur, ps[..i]) + (if ps[i].db != c then [SelectLine(ps[i].db)] else []) + [ps[i].line]
    decreases i
  {
    if i == 0 {
      assert ps[..1] == [ps[0]] && ps[..0] == [] && ps[..1][1..] == [];
      assert Lines(ps[0].db, ps[..1][1..]) == [];
    } else {
      var t := ps[1..];
      LinesSnoc(ps[0].db, t, i - 1);
      assert ps[..i + 1][1..] == t[..i] && ps[..i][1..] == t[..i - 1] && t[i - 1] == ps[i];
      assert CurrentAfter(ps[0].db, t[..i - 1]) == CurrentAfter(cur, ps[..i]);
    }
  }

  function LineOf(m: Message): (line: seq<bytes>)
    requires Sendable(m)
    ensures line != [] && Strings(line) == m
  {
    Values(m)
  }

  /** The lines the parser hands to the replay loop. */
  function ReceivedLines(ms: seq<Message>): (r: seq<seq<bytes>>)
    requires forall i :: 0 <= i < |ms| ==> Sendable(ms[i])
    ensures |r| == |ms| && forall i :: 0 <= i < |ms| ==> r[i] != [] && r[i] == LineOf(ms[i])
  {
    seq(|ms|, i requires 0 <= i < |ms| => LineOf(ms[i]))
  }

  const FRESH_START := Replay([], 0, 0)

  /** A replay of the whole file from a fresh handler; when the parser dies before the process does, it never ends. */
  function ReplayFile(file: bytes, srv: Server): Option<Replay> {
    var (sent, end) := Run(IDLE, file);
    RunStaysClean(IDLE, file);
    ReceivedIsClean(sent);
    var r := ReplayLines(FRESH_START, ReceivedLines(Received(sent)), srv);
    if end.Died? && r.Replay? then None else Some(r)
  }

  class AofHandler {
    var file: bytes
    var currentDB: int

    constructor (file: bytes)
      ensures this.file == file && currentDB == 0
    {
      this.file := file;
      currentDB := 0;
    }

    /** Write the queued entries to the file, with a SELECT whenever the database changes. */
    method HandleAof(ps: seq<Entry>)
      modifies this
      ensures file == old(file) + FileOf(Lines(old(currentDB), ps))
      ensures currentDB == CurrentAfter(old(currentDB), ps)
    {
      ghost var cur := currentDB;
      assert ps[..0] == [] && file + [] == file;
      for i := 0 to |ps|
        invariant file == old(file) + FileOf(Lines(cur, ps[..i]))
        invariant currentDB == CurrentAfter(cur, ps[..i])
      {
        LinesSnoc(cur, ps, i);
        WriteEntry(ps[i], old(file), Lines(cur, ps[..i]));
      }
      assert ps[..|ps|] == ps;
    }

    method WriteEntry(p: Entry, ghost before: bytes, ghost lines: seq<seq<bytes>>)
      requires file == before + FileOf(lines)
      modifies this
      ensures currentDB == p.db
      ensures file == before + FileOf(lines + (if p.db != old(currentDB) then [SelectLine(p.db)] else []) + [p.line])
    {
      if p.db != currentDB {
        currentDB := p.db;
        WriteLine(SelectLine(p.db), before, lines);
        WriteLine(p.line, before, lines + [SelectLine(p.db)]);
      } else {
        assert lines + [] == lines;
        WriteLine(p.line, before, lines);
      }
    }

    method WriteLine(line: seq<bytes>, ghost before: bytes, ghost lines: seq<seq<bytes>>)
      requires file == before + FileOf(lines)
      modifies `file
      ensures file == before + FileOf(lines + [line])
    {
      var data := MultiBulkToBytes(Strings(line));
      FileOfConcat(lines, [line]);
      FileOfOne(line);
      Regroup(before, FileOf(lines), data);
      file := file + data;
    }

    /**
     Run the commands of the file. When the log ends in another database than 0, a SELECT 0 is appended, but
     `currentDB` keeps the number of that other database.
     */
    method LoadAof(srv: Server) returns (r: Option<Replay>)
      requires currentDB == 0
      modifies this
      ensures r == ReplayFile(old(file), srv)
      ensures r.Some? && r.value.Replay? ==>
                && currentDB == r.value.current
                && file == if currentDB != 0 then old(file) + FileOf([SelectLine(0)]) else old(file)
      ensures !(r.Some? && r.value.Replay?) ==> file == old(file)
    {
      var sent, end := ParseIt(file);
      RunStaysClean(IDLE, file);
      ReceivedIsClean(sent);
      var replay := FRESH_START;
      ghost var all := ReplayLines(replay, ReceivedLines(Received(sent)), srv);
      var rest := sent;
      while rest != [] && replay.Replay?
        invariant file == old(file) && currentDB == 0
        invariant CleanSent(rest) && (forall i :: 0 <= i < |Received(rest)| ==> Sendable(Received(rest)[i]))
        invariant ReplayLines(replay, ReceivedLines(Received(rest)), srv) == all
        decreases |rest|
      {
        replay, rest := ReplayPayload(replay, rest, srv);
      }
      assert replay == all;
      if end.Died? && replay.Replay? {
        return None;
      }
      if replay.Replay? {
        currentDB := replay.current;
        if currentDB != 0 {
          var data := MultiBulkToBytes(Strings(SelectLine(0)));
          FileOfOne(SelectLine(0));
          assert data == FileOf([SelectLine(0)]);
          file := file + data;
        }
      }
      return Some(replay);
    }
  }

  /** One payload: errors, empty payloads and other replies are passed over. */
  method ReplayPayload(r: Replay, sent: seq<Payload>, srv: Server) returns (r': Replay, rest: seq<Payload>)
    requires r.Replay? && sent != [] && CleanSent(sent)
    requires forall i :: 0 <= i < |Received(sent)| ==> Sendable(Received(sent)[i])
    ensures rest == sent[1..] && CleanSent(rest)
    ensures forall i :: 0 <= i < |Received(rest)| ==> Sendable(Received(rest)[i])
    ensures ReplayLines(r', ReceivedLines(Received(rest)), srv) == ReplayLines(r, ReceivedLines(Received(sent)), srv)
  {
    r', rest := r, sent[1..];
    ReceivedIsClean(rest);
    if sent[0].Data? && sent[0].reply.MultiBulk? {
      var m := sent[0].reply.args;
      assert Received(sent) == [m] + Received(rest);
      assert ReceivedLines(Received(sent))[0] == LineOf(m);
      assert ReceivedLines(Received(sent))[1..] == ReceivedLines(Received(rest));
      r' := ReplayLine(r, LineOf(m), srv);
    } else {
      assert Received(sent) == [] + Received(rest) == Received(rest);
    }
  }

  // ----- replaying what was logged -----

  /** Every argument of the entries has a length that fits Go's int, with room for the line break. */
  predicate Fits(ps: seq<Entry>) {
    forall i, j :: 0 <= i < |ps| && 0 <= j < |ps[i].line| ==> |ps[i].line[j]| + 2 <= MAX_INT64
  }

  predicate AllReadable(lines: seq<seq<bytes>>) {
    forall i :: 0 <= i < |lines| ==> lines[i] != [] && Readable(Strings(lines[i]))
  }

  predicate ReadableEntry(p: Entry) {
    p.line != [] && Readable(Strings(p.line))
  }

  lemma {:induction false} ReceivedMessages(lines: seq<seq<bytes>>)
    requires forall i :: 0 <= i < |lines| ==> Sendable(Strings(lines[i]))
    ensures ReceivedLines(Messages(lines)) == lines
  {
    var r := ReceivedLines(Messages(lines));
    forall i | 0 <= i < |lines| ensures r[i] == lines[i] {
      StringsApart(r[i], lines[i]);
    }
  }

  lemma {:induction false} StringsApart(a: seq<bytes>, b: seq<bytes>)
    ensures Strings(a) == Strings(b) ==> a == b
  {
    if Strings(a) == Strings(b) {
      forall i | 0 <= i < |a| ensures a[i] == b[i] {
        assert Strings(a)[i] == Strings(b)[i];
      }
    }
  }

  lemma {:induction false} ReplayOfReceived(file: bytes, lines: seq<seq<bytes>>, srv: Server)
    requires Received(Run(IDLE, file).0) == Messages(lines) && !Run(IDLE, file).1.Died?
    requires forall i :: 0 <= i < |lines| ==> lines[i] != [] && Sendable(Strings(lines[i]))
    ensures ReplayFile(file, srv) == Some(ReplayLines(FRESH_START, lines, srv))
  {
    ReceivedMessages(lines);
  }

  lemma {:induction false} AllSendable(lines: seq<seq<bytes>>)
    requires AllReadable(lines)
    ensures forall i :: 0 <= i < |lines| ==> lines[i] != [] && Sendable(Strings(lines[i]))
    ensures forall i :: 0 <= i < |lines| ==> Readable(Messages(lines)[i])
  {
    forall i | 0 <= i < |lines| ensures Sendable(Strings(lines[i])) { assert Readable(Strings(lines[i])); }
  }

  lemma {:induction false} LinesReceived(lines: seq<seq<bytes>>, srv: Server)
    requires AllReadable(lines)
    ensures ReplayFile(FileOf(lines), srv) == Some(ReplayLines(FRESH_START, lines, srv))
  {
    AllSendable(lines);
    StreamRead(Messages(lines));
    ReplayOfReceived(FileOf(lines), lines, srv);
  }

  lemma {:induction false} SelectReadable(db: nat, srv: Server)
    requires db < srv.dbs <= MAX_INT64
    ensures Readable(Strings(SelectLine(db)))
  {
    FormatNatIsDigits(db);
    FormatNatIsShort(db);
  }

  lemma {:induction false} LinesReadable(cur: int, ps: seq<Entry>, srv: Server)
    requires srv.dbs <= MAX_INT64 && forall i :: 0 <= i < |ps| ==> ReadableEntry(ps[i]) && ps[i].db < srv.dbs
    ensures AllReadable(Lines(cur, ps))
    decreases |ps|
  {
    if ps != [] {
      LinesReadable(ps[0].db, ps[1..], srv);
      SelectReadable(ps[0].db, srv);
    }
  }

  /** A log written from the start of a file is replayed command for command, each in its own database, or crashes. */
  lemma {:induction false} LogReplays(ps: seq<Entry>, srv: Server)
    requires forall i :: 0 <= i < |ps| ==> Loggable(ps[i], srv) && ReadableEntry(ps[i])
    ensures var d := CurrentAfter(0, ps);
            d >= 0 && ReplayFile(FileOf(Lines(0, ps)), srv) == Some(if Smooth(srv, [], ps) then Replay(ps, d, d) else Crashed)
  {
    var start := FRESH_START;
    if ps != [] {
      assert Loggable(ps[0], srv);
      LinesReadable(0, ps, srv);
    }
    LinesReceived(Lines(0, ps), srv);
    LinesReplay(start, ps, srv);
    assert start.run + ps == ps;
  }

  /** Only what the parser can send is ever run. */
  predicate RunSendable(r: Replay) {
    r.Replay? ==> forall i :: 0 <= i < |r.run| ==> Sendable(Strings(r.run[i].line))
  }

  lemma {:induction false} ReplayStaysSendable(r: Replay, lines: seq<seq<bytes>>, srv: Server)
    requires RunSendable(r) && forall i :: 0 <= i < |lines| ==> lines[i] != [] && Sendable(Strings(lines[i]))
    ensures RunSendable(ReplayLines(r, lines, srv))
    decreases |lines|
  {
    if lines != [] && r.Replay? {
      ReplayStaysSendable(ReplayLine(r, lines[0], srv), lines[1..], srv);
    }
  }

  lemma {:induction false} FileReplaysSendable(file: bytes, srv: Server)
    ensures var r := ReplayFile(file, srv); r.Some? ==> RunSendable(r.value)
  {
    var (sent, end) := Run(IDLE, file);
    RunStaysClean(IDLE, file);
    ReceivedIsClean(sent);
    var lines := ReceivedLines(Received(sent));
    forall i | 0 <= i < |lines| ensures lines[i] != [] && Sendable(Strings(lines[i])) {
      assert Strings(lines[i]) == Received(sent)[i];
    }
    ReplayStaysSendable(FRESH_START, lines, srv);
  }

  predicate Replays(file: bytes, ps: seq<Entry>, srv: Server) {
    var r := ReplayFile(file, srv);
    r.Some? && r.value.Replay? && r.value.run == ps
  }

  lemma {:induction false} UnreadableLine(cur: int, ps: seq<Entry>, i: nat)
    requires i < |ps|
    ensures exists k :: 0 <= k < |Lines(cur, ps)| && Lines(cur, ps)[k] == ps[i].line
    decreases |ps|
  {
    var head := (if ps[0].db != cur then [SelectLine(ps[0].db)] else []) + [ps[0].line];
    var rest := Lines(ps[0].db, ps[1..]);
    assert Lines(cur, ps) == head + rest;
    if i == 0 {
      assert (head + rest)[|head| - 1] == ps[0].line;
    } else {
      UnreadableLine(ps[0].db, ps[1..], i - 1);
      var k :| 0 <= k < |rest| && rest[k] == ps[i].line;
      assert (head + rest)[|head| + k] == rest[k];
    }
  }

  predicate PlainLine(line: seq<bytes>) {
    0 < |line| <= MAX_UINT32 && forall j :: 0 <= j < |line| ==> Plain(Some(line[j]))
  }

  predicate AllPlain(lines: seq<seq<bytes>>) {
    forall i :: 0 <= i < |lines| ==> PlainLine(lines[i])
  }

  lemma {:induction false} LinesPlain(cur: int, ps: seq<Entry>, srv: Server)
    requires forall i :: 0 <= i < |ps| ==> Loggable(ps[i], srv) && Sendable(Strings(ps[i].line))
    requires Fits(ps)
    ensures AllPlain(Lines(cur, ps))
    decreases |ps|
  {
    if ps != [] {
      assert Loggable(ps[0], srv);
      SelectReadable(ps[0].db, srv);
      LinesPlain(ps[0].db, ps[1..], srv);
      ReadableIsPlain(SelectLine(ps[0].db));
      EntryIsPlain(ps[0].line);
    }
  }

  lemma {:induction false} ReadableIsPlain(line: seq<bytes>)
    requires Readable(Strings(line))
    ensures PlainLine(line)
  {
    forall j | 0 <= j < |line| ensures Plain(Some(line[j])) { assert Plain(Strings(line)[j]); }
  }

  lemma {:induction false} EntryIsPlain(line: seq<bytes>)
    requires Sendable(Strings(line)) && forall j :: 0 <= j < |line| ==> |line[j]| + 2 <= MAX_INT64
    ensures PlainLine(line)
  {
    forall j | 0 <= j < |line| ensures Plain(Some(line[j])) { assert Strings(line)[j] == Some(line[j]); }
  }

  /**
   The log of any commands, over any databases, is replayed as it was logged exactly when every line is readable and
   none makes Exec panic on the way.
   */
  lemma {:induction false} LogReplaysExactly(ps: seq<Entry>, srv: Server)
    requires Fits(ps) && forall i :: 0 <= i < |ps| ==> Loggable(ps[i], srv)
    ensures Replays(FileOf(Lines(0, ps)), ps, srv)
            <==> (forall i :: 0 <= i < |ps| ==> ReadableEntry(ps[i])) && Smooth(srv, [], ps)
  {
    var file := FileOf(Lines(0, ps));
    if forall i :: 0 <= i < |ps| ==> ReadableEntry(ps[i]) {
      LogReplays(ps, srv);
    } else if forall i :: 0 <= i < |ps| ==> Sendable(Strings(ps[i].line)) {
      var i: nat :| i < |ps| && !ReadableEntry(ps[i]);
      UnreadableFails(ps, i, srv);
    } else {
      FileReplaysSendable(file, srv);
    }
  }

  lemma {:induction false} UnreadableFails(ps: seq<Entry>, i: nat, srv: Server)
    requires Fits(ps) && forall j :: 0 <= j < |ps| ==> Loggable(ps[j], srv) && Sendable(Strings(ps[j].line))
    requires i < |ps| && !ReadableEntry(ps[i])
    ensures var r := ReplayFile(FileOf(Lines(0, ps)), srv); r.Some? ==> r.value.Crashed?
  {
    LinesPlain(0, ps, srv);
    UnreadableLine(0, ps, i);
    var k :| 0 <= k < |Lines(0, ps)| && Lines(0, ps)[k] == ps[i].line;
    UnreadableFileDies(Lines(0, ps), k, srv);
  }

  lemma {:induction false} UnreadableFileDies(lines: seq<seq<bytes>>, k: nat, srv: Server)
    requires AllPlain(lines) && k < |lines| && !Readable(Strings(lines[k]))
    ensures var r := ReplayFile(FileOf(lines), srv); r.Some? ==> r.value.Crashed?
  {
    UnreadableLineKills(lines, k);
    DiedIsNoReplay(FileOf(lines), srv);
  }

  lemma {:induction false} DiedIsNoReplay(file: bytes, srv: Server)
    requires Run(IDLE, file).1.Died?
    ensures var r := ReplayFile(file, srv); r.Some? ==> r.value.Crashed?
  {
  }

  lemma {:induction false} UnreadableLineKills(lines: seq<seq<bytes>>, k: nat)
    requires AllPlain(lines) && k < |lines| && !Readable(Strings(lines[k]))
    ensures Run(IDLE, FileOf(lines)).1.Died?
  {
    var ms := Messages(lines);
    forall i | 0 <= i < |ms| ensures 0 < |ms[i]| <= MAX_UINT32 && forall j :: 0 <= j < |ms[i]| ==> Plain(ms[i][j]) {
      assert PlainLine(lines[i]);
    }
    assert !Readable(ms[k]);
    UnreadableStreamDies(ms);
  }

  // ----- a restart in the middle -----

  lemma {:induction false} RunOnlyGrows(r: Replay, lines: seq<seq<bytes>>, srv: Server)
    requires r.Replay? && forall i :: 0 <= i < |lines| ==> lines[i] != []
    ensures var e := ReplayLines(r, lines, srv); e.Replay? ==> r.run <= e.run
    decreases |lines|
  {
    if lines != [] {
      var r' := ReplayLine(r, lines[0], srv);
      if r'.Replay? { RunOnlyGrows(r', lines[1..], srv); }
    }
  }

  /** With the file at database 0 but the handler at `k`, logging goes right exactly when it starts elsewhere than `k`. */
  lemma {:induction false} OutOfStep(run: seq<Entry>, k: nat, ps: seq<Entry>, srv: Server)
    requires k > 0 && srv.dbs > 0 && forall i :: 0 <= i < |ps| ==> Loggable(ps[i], srv)
    ensures forall i :: 0 <= i < |Lines(k, ps)| ==> Lines(k, ps)[i] != []
    ensures var e := ReplayLines(Replay(run, 0, 0), Lines(k, ps), srv);
            (e.Replay? && e.run == run + ps) <==> (ps == [] || ps[0].db != k) && Smooth(srv, run, ps)
  {
    LinesNonEmpty(k, ps);
    if ps == [] {
      assert run + ps == run;
    } else if ps[0].db == k {
      StartsWrong(run, k, ps, srv);
      assert (run + ps)[|run|] == ps[0] && (run + [Entry(0, ps[0].line)])[|run|] == Entry(0, ps[0].line);
    } else {
      LinesReplay(Replay(run, 0, 0), ps, srv);
      SelectsFirst(run, k, ps, srv);
    }
  }

  /** Another database than `k` is selected, or database 0 once more. */
  lemma {:induction false} SelectsFirst(run: seq<Entry>, k: nat, ps: seq<Entry>, srv: Server)
    requires k > 0 && srv.dbs > 0 && ps != [] && ps[0].db != k && forall i :: 0 <= i < |ps| ==> Loggable(ps[i], srv)
    ensures forall i :: 0 <= i < |Lines(k, ps)| ==> Lines(k, ps)[i] != []
    ensures forall i :: 0 <= i < |Lines(0, ps)| ==> Lines(0, ps)[i] != []
    ensures ReplayLines(Replay(run, 0, 0), Lines(k, ps), srv) == ReplayLines(Replay(run, 0, 0), Lines(0, ps), srv)
  {
    LinesNonEmpty(k, ps);
    LinesNonEmpty(0, ps);
    LinesFromElsewhere(k, ps);
    if ps[0].db == 0 { SelectThen(Replay(run, 0, 0), Lines(0, ps), srv); }
  }

  lemma {:induction false} LinesFromElsewhere(k: nat, ps: seq<Entry>)
    requires ps != [] && ps[0].db != k
    ensures Lines(k, ps) == (if ps[0].db == 0 then [SelectLine(0)] else []) + Lines(0, ps)
  {
    var rest := Lines(ps[0].db, ps[1..]);
    assert Lines(k, ps) == [SelectLine(ps[0].db)] + [ps[0].line] + rest;
    if ps[0].db == 0 {
      assert Lines(0, ps) == [] + [ps[0].line] + rest == [ps[0].line] + rest;
    }
  }

  lemma {:induction false} SelectThen(r: Replay, rest: seq<seq<bytes>>, srv: Server)
    requires r.Replay? && 0 < srv.dbs <= MAX_INT64 && forall i :: 0 <= i < |rest| ==> rest[i] != []
    ensures SelectLine(0) != [] && ReplayLines(r, [SelectLine(0)] + rest, srv) == ReplayLines(Replay(r.run, 0, 0), rest, srv)
  {
    SelectReplays(r, 0, srv);
    assert ([SelectLine(0)] + rest)[1..] == rest;
  }

  lemma {:induction false} StartsWrong(run: seq<Entry>, k: nat, ps: seq<Entry>, srv: Server)
    requires k > 0 && ps != [] && ps[0].db == k && forall i :: 0 <= i < |ps| ==> Loggable(ps[i], srv)
    ensures forall i :: 0 <= i < |Lines(k, ps)| ==> Lines(k, ps)[i] != []
    ensures var e := ReplayLines(Replay(run, 0, 0), Lines(k, ps), srv); e.Replay? ==> run + [Entry(0, ps[0].line)] <= e.run
  {
    LinesNonEmpty(k, ps);
    var rest := Lines(k, ps[1..]);
    LinesNonEmpty(k, ps[1..]);
    assert Loggable(ps[0], srv);
    assert Lines(k, ps) == [ps[0].line] + rest;
    RunOnlyGrows(Replay(run + [Entry(0, ps[0].line)], 0, 0), rest, srv);
  }

  /** What the file holds after logging `before`, restarting, and logging `after`. */
  function RestartLines(before: seq<Entry>, after: seq<Entry>): seq<seq<bytes>> {
    var k := CurrentAfter(0, before);
    Lines(0, before) + (if k != 0 then [SelectLine(0)] else []) + Lines(k, after)
  }

  /**
   A restart between two runs loses the database of what is logged next exactly when the first run ended in a
   database other than 0 and the second begins in that same database. Apart from that, only a panic is in the way.
   */
  lemma {:induction false} RestartExactly(before: seq<Entry>, after: seq<Entry>, srv: Server)
    requires 0 < srv.dbs <= MAX_INT64
    requires forall i :: 0 <= i < |before| ==> Loggable(before[i], srv) && ReadableEntry(before[i])
    requires forall i :: 0 <= i < |after| ==> Loggable(after[i], srv) && ReadableEntry(after[i])
    ensures var k := CurrentAfter(0, before);
            Replays(FileOf(RestartLines(before, after)), before + after, srv)
            <==> (k == 0 || after == [] || after[0].db != k) && Smooth(srv, [], before + after)
  {
    var k, lines := CurrentAfter(0, before), RestartLines(before, after);
    LinesReadable(0, before, srv);
    LinesReadable(k, after, srv);
    SelectReadable(0, srv);
    LinesReceived(lines, srv);
    RestartReplays(before, after, srv);
  }

  lemma {:induction false} RestartReplays(before: seq<Entry>, after: seq<Entry>, srv: Server)
    requires 0 < srv.dbs <= MAX_INT64
    requires forall i :: 0 <= i < |before| ==> Loggable(before[i], srv)
    requires forall i :: 0 <= i < |after| ==> Loggable(after[i], srv)
    ensures var lines := RestartLines(before, after);
            && (forall i :: 0 <= i < |lines| ==> lines[i] != [])
            && var e := ReplayLines(FRESH_START, lines, srv); var k := CurrentAfter(0, before);
               (e.Replay? && e.run == before + after)
               <==> (k == 0 || after == [] || after[0].db != k) && Smooth(srv, [], before + after)
  {
    var start, k := FRESH_START, CurrentAfter(0, before);
    LinesReplay(start, before, srv);
    assert start.run + before == before;
    SmoothBoth(srv, [], before, after);
    var middle := if k != 0 then [SelectLine(0)] else [];
    LinesNonEmpty(k, after);
    ReplayConcat(start, Lines(0, before), middle, srv);
    ReplayConcat(start, Lines(0, before) + middle, Lines(k, after), srv);
    if k == 0 {
      LinesReplay(Replay(before, k, k), after, srv);
    } else {
      SelectsZero(Replay(before, k, k), srv);
      OutOfStep(before, k, after, srv);
    }
  }

  lemma {:induction false} SelectsZero(r: Replay, srv: Server)
    requires r.Replay? && 0 < srv.dbs <= MAX_INT64
    ensures SelectLine(0) != [] && ReplayLines(r, [SelectLine(0)], srv) == Replay(r.run, 0, 0)
  {
    SelectReplays(r, 0, srv);
    assert [SelectLine(0)][1..] == [];
  }

  lemma {:induction false} RestartFile(before: seq<Entry>, after: seq<Entry>)
    ensures var k, file := CurrentAfter(0, before), FileOf(Lines(0, before));
            FileOf(RestartLines(before, after)) ==
            (if k != 0 then file + FileOf([SelectLine(0)]) else file) + FileOf(Lines(k, after))
  {
    var k, lines := CurrentAfter(0, before), Lines(0, before);
    var middle := if k != 0 then [SelectLine(0)] else [];
    FileOfConcat(lines, middle);
    FileOfConcat(lines + middle, Lines(k, after));
    assert k == 0 ==> lines + middle == lines;
  }

  /** Two runs of the server on one file, the second beginning with a replay; when that crashes, there is no second run. */
  method LogAcrossRestart(before: seq<Entry>, after: seq<Entry>, srv: Server) returns (file: bytes)
    requires 0 < srv.dbs <= MAX_INT64
    requires forall i :: 0 <= i < |before| ==> Loggable(before[i], srv) && ReadableEntry(before[i])
    requires forall i :: 0 <= i < |after| ==> Loggable(after[i], srv) && ReadableEntry(after[i])
    ensures Smooth(srv, [], before) ==>
              (Replays(file, before + after, srv) <==>
                (CurrentAfter(0, before) == 0 || after == [] || after[0].db != CurrentAfter(0, before))
                && Smooth(srv, [], before + after))
    ensures !Smooth(srv, [], before) ==> file == FileOf(Lines(0, before)) && ReplayFile(file, srv) == Some(Crashed)
  {
    LogReplays(before, srv);
    RestartExactly(before, after, srv);
    RestartFile(before, after);
    var first := new AofHandler([]);
    first.HandleAof(before);
    assert first.file == [] + FileOf(Lines(0, before)) == FileOf(Lines(0, before));
    var second := new AofHandler(first.file);
    var replay := second.LoadAof(srv);
    if replay.Some? && replay.value.Replay? {
      second.HandleAof(after);
    }
    return second.file;
  }
}
