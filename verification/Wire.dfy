/**
 Command lines: how a received line becomes a command of database/command.go's table, and the line that the command
 itself hands to the log.
 */
module Wire {
  import opened Bytes
  import opened Decimal
  import opened Programs
  import opened Commands
  import opened Aof

  datatype Kind =
    | KGet | KSet | KSetNX | KGetSet | KDel | KRename | KRenameNX | KSAdd | KSRem | KSUnionStore | KZAdd | KFlushDB

  /** The name the command logs itself under. */
  function Name(k: Kind): (s: bytes)
    ensures s != []
  {
    match k
    case KGet => [71, 69, 84]
    case KSet => [83, 69, 84]
    case KSetNX => [83, 69, 84, 78, 88]
    case KGetSet => [71, 69, 84, 83, 69, 84]
    case KDel => [68, 69, 76]
    case KRename => [82, 69, 78, 65, 77, 69]
    case KRenameNX => [82, 69, 78, 65, 77, 69, 78, 88]
    case KSAdd => [83, 65, 68, 68]
    case KSRem => [83, 82, 69, 77]
    case KSUnionStore => [83, 85, 78, 73, 79, 78, 83, 84, 79, 82, 69]
    case KZAdd => [90, 65, 68, 68]
    case KFlushDB => [70, 76, 85, 83, 72, 68, 66]
  }

  /** Exact argument count including the name, or minus the least count. */
  function Arity(k: Kind): int {
    match k
    case KGet => 2
    case KSet => 3
    case KSetNX => 3
    case KGetSet => 3
    case KDel => -2
    case KRename => 3
    case KRenameNX => 3
    case KSAdd => -3
    case KSRem => -3
    case KSUnionStore => -3
    case KZAdd => -4
    case KFlushDB => 1
  }

  predicate ValidArity(arity: int, line: seq<bytes>) {
    if arity >= 0 then arity == |line| else -arity <= |line|
  }

  const KINDS := [KGet, KSet, KSetNX, KGetSet, KDel, KRename, KRenameNX, KSAdd, KSRem, KSUnionStore, KZAdd, KFlushDB]

  function Place(k: Kind): (i: nat)
    ensures i < |KINDS| && KINDS[i] == k
  {
    match k
    case KGet => 0
    case KSet => 1
    case KSetNX => 2
    case KGetSet => 3
    case KDel => 4
    case KRename => 5
    case KRenameNX => 6
    case KSAdd => 7
    case KSRem => 8
    case KSUnionStore => 9
    case KZAdd => 10
    case KFlushDB => 11
  }

  /** The command table, keyed by names in lower case. */
  function Lookup(name: bytes, i: nat): (k: Option<Kind>)
    requires i <= |KINDS|
    decreases |KINDS| - i
  {
    if i == |KINDS| then None
    else if Lower(Name(KINDS[i])) == name then Some(KINDS[i])
    else Lookup(name, i + 1)
  }

  function KeysOf(db: nat, names: seq<bytes>): (r: seq<Key>)
    ensures |r| == |names| && forall i :: 0 <= i < |r| ==> r[i] == Key(db, names[i])
  {
    seq(|names|, i requires 0 <= i < |names| => Key(db, names[i]))
  }

  function NamesOf(keys: seq<Key>): (r: seq<bytes>)
    ensures |r| == |keys| && forall i :: 0 <= i < |r| ==> r[i] == keys[i].name
  {
    seq(|keys|, i requires 0 <= i < |keys| => keys[i].name)
  }

  /** Score and member alternate. */
  function PairsOf(args: seq<bytes>): (r: seq<(bytes, bytes)>)
    requires |args| % 2 == 0
    ensures |r| == |args| / 2 && forall i :: 0 <= i < |r| ==> r[i] == (args[2 * i], args[2 * i + 1])
  {
    seq(|args| / 2, i requires 0 <= i < |args| / 2 => (args[2 * i], args[2 * i + 1]))
  }

  function Flat(es: seq<(bytes, bytes)>): (r: seq<bytes>)
    ensures |r| == 2 * |es|
    ensures forall i :: 0 <= i < |r| ==> r[i] == if i % 2 == 0 then es[i / 2].0 else es[i / 2].1
  {
    seq(2 * |es|, i requires 0 <= i < 2 * |es| => if i % 2 == 0 then es[i / 2].0 else es[i / 2].1)
  }

  /** A line whose name is in the table and whose argument count fits, run in database `db`; `luck` as in Cmd. */
  function Decode(db: nat, line: seq<bytes>, luck: nat): Option<Cmd>
    requires line != []
  {
    match Lookup(Lower(line[0]), 0)
    case None => None
    case Some(k) => if ValidArity(Arity(k), line) then Build(k, db, line[1..], luck) else None
  }

  /** The same command on another occasion. */
  function WithLuck(c: Cmd, luck: nat): Cmd {
    if c.SUnionStore? then c.(luck := luck) else c
  }

  function Build(k: Kind, db: nat, args: seq<bytes>, luck: nat): Option<Cmd>
    requires if Arity(k) >= 0 then Arity(k) == |args| + 1 else -Arity(k) <= |args| + 1
  {
    match k
    case KGet => Some(Get(Key(db, args[0])))
    case KSet => Some(Set(Key(db, args[0]), args[1]))
    case KSetNX => Some(SetNX(Key(db, args[0]), args[1]))
    case KGetSet => Some(GetSet(Key(db, args[0]), args[1]))
    case KDel => Some(Del(KeysOf(db, args)))
    case KRename => Some(Rename(Key(db, args[0]), Key(db, args[1])))
    case KRenameNX => Some(RenameNX(Key(db, args[0]), Key(db, args[1])))
    case KSAdd => Some(SAdd(Key(db, args[0]), args[1..]))
    case KSRem => Some(SRem(Key(db, args[0]), args[1..]))
    case KSUnionStore => Some(SUnionStore(Key(db, args[0]), KeysOf(db, args[1..]), luck))
    case KZAdd => if |args| % 2 == 0 then None else Some(ZAdd(Key(db, args[0]), PairsOf(args[1..])))
    case KFlushDB => Some(FlushDB(db))
  }

  function KindOf(c: Cmd): Kind {
    match c
    case Get(_) => KGet
    case Set(_, _) => KSet
    case SetNX(_, _) => KSetNX
    case GetSet(_, _) => KGetSet
    case Del(_) => KDel
    case Rename(_, _) => KRename
    case RenameNX(_, _) => KRenameNX
    case SAdd(_, _) => KSAdd
    case SRem(_, _) => KSRem
    case SUnionStore(_, _, _) => KSUnionStore
    case ZAdd(_, _) => KZAdd
    case FlushDB(_) => KFlushDB
  }

  /** The arguments a command logs: those it was given. */
  function ArgsOf(c: Cmd): seq<bytes> {
    match c
    case Get(k) => [k.name]
    case Set(k, t) => [k.name, t]
    case SetNX(k, t) => [k.name, t]
    case GetSet(k, t) => [k.name, t]
    case Del(ks) => NamesOf(ks)
    case Rename(src, dst) => [src.name, dst.name]
    case RenameNX(src, dst) => [src.name, dst.name]
    case SAdd(k, ms) => [k.name] + ms
    case SRem(k, ms) => [k.name] + ms
    case SUnionStore(dst, ks, _) => [dst.name] + NamesOf(ks)
    case ZAdd(k, es) => [k.name] + Flat(es)
    case FlushDB(_) => []
  }

  /** The database a command belongs to. */
  function DbOf(c: Cmd): nat {
    match c
    case Del(ks) => if ks == [] then 0 else ks[0].db
    case Rename(src, _) => src.db
    case RenameNX(src, _) => src.db
    case SUnionStore(dst, _, _) => dst.db
    case FlushDB(db) => db
    case _ => c.key.db
  }

  /** The line handed to addAof. */
  function Encode(c: Cmd): (line: seq<bytes>)
    ensures line != []
  {
    [Name(KindOf(c))] + ArgsOf(c)
  }

  // ----- the two directions -----

  lemma {:induction false} LookupFinds(k: Kind)
    ensures Lookup(Lower(Name(k)), 0) == Some(k)
  {
    LookupReaches(Place(k), 0);
  }

  lemma {:induction false} LookupReaches(i: nat, j: nat)
    requires j <= i < |KINDS|
    ensures Lookup(Lower(Name(KINDS[i])), j) == Some(KINDS[i])
    decreases i - j
  {
    if j < i {
      NamesDiffer(j, i);
      LookupReaches(i, j + 1);
    }
  }

  /** Two names of the table differ in length or in the letter at some place. */
  lemma {:induction false} NamesDiffer(i: nat, j: nat)
    requires i < j < |KINDS|
    ensures Lower(Name(KINDS[i])) != Lower(Name(KINDS[j]))
  {
    var a, b := Lower(Name(KINDS[i])), Lower(Name(KINDS[j]));
    assert |a| != |b| || a[0] != b[0] || a[1] != b[1];
  }

  lemma {:induction false} LookupSound(name: bytes, i: nat)
    requires i <= |KINDS|
    ensures var k := Lookup(name, i); k.Some? ==> Lower(Name(k.value)) == name
    decreases |KINDS| - i
  {
    if i < |KINDS| { LookupSound(name, i + 1); }
  }

  lemma {:induction false} BuildArgs(k: Kind, db: nat, args: seq<bytes>, luck: nat)
    requires if Arity(k) >= 0 then Arity(k) == |args| + 1 else -Arity(k) <= |args| + 1
    ensures var c := Build(k, db, args, luck); c.Some? ==> ArgsOf(c.value) == args && KindOf(c.value) == k && DbOf(c.value) == db
  {
    match k
    case KDel => assert NamesOf(KeysOf(db, args)) == args;
    case KSUnionStore => assert NamesOf(KeysOf(db, args[1..])) == args[1..];
    case KZAdd =>
      if |args| % 2 == 1 {
        assert Flat(PairsOf(args[1..])) == args[1..];
      }
    case _ =>
  }

  lemma {:induction false} BuildLuck(k: Kind, db: nat, args: seq<bytes>, luck: nat, luck': nat)
    requires if Arity(k) >= 0 then Arity(k) == |args| + 1 else -Arity(k) <= |args| + 1
    ensures var c := Build(k, db, args, luck); c.Some? ==> Build(k, db, args, luck') == Some(WithLuck(c.value, luck'))
  {
  }

  /**
   What a command logs is the line it came from, with its name in the table's spelling; decoded again in the same
   database, on any occasion, it is the same command.
   */
  lemma {:induction false} LoggedLineIsTheCommand(db: nat, line: seq<bytes>, luck: nat, luck': nat)
    requires line != [] && Decode(db, line, luck).Some?
    ensures var c := Decode(db, line, luck).value;
            && Decode(db, Encode(c), luck') == Some(WithLuck(c, luck')) && DbOf(c) == db
            && Encode(c)[1..] == line[1..] && Lower(Encode(c)[0]) == Lower(line[0])
  {
    var c := Decode(db, line, luck).value;
    var k := Lookup(Lower(line[0]), 0).value;
    LookupSound(Lower(line[0]), 0);
    BuildArgs(k, db, line[1..], luck);
    BuildLuck(k, db, line[1..], luck, luck');
    LookupFinds(k);
    assert Encode(c)[1..] == ArgsOf(c);
  }

  /** No command of the table is taken for a SELECT by the replay. */
  lemma {:induction false} NeverSelect(k: Kind)
    ensures Lower(Name(k)) != SELECT_LOWER
  {
    var a := Lower(Name(k));
    assert |a| != |SELECT_LOWER| || a[0] != SELECT_LOWER[0];
  }

  // ----- every command by its letters -----

  /** The name is written in capitals, and any of its letters may be small instead. */
  predicate Spells(name: bytes, capitals: bytes) {
    |name| == |capitals| && forall i :: 0 <= i < |name| ==> name[i] == capitals[i] || name[i] as int == capitals[i] as int + 32
  }

  /** The names of the table are capitals. */
  lemma {:induction false} InCapitals(k: Kind)
    ensures forall i :: 0 <= i < |Name(k)| ==> 65 <= Name(k)[i] <= 90
  {
  }

  lemma {:induction false} SpellsExactly(name: bytes, k: Kind)
    ensures Spells(name, Name(k)) <==> Lower(name) == Lower(Name(k))
  {
    InCapitals(k);
    var a, b := Lower(name), Lower(Name(k));
    if a == b {
      forall i | 0 <= i < |name| ensures name[i] == Name(k)[i] || name[i] == Name(k)[i] + 32 { assert a[i] == b[i]; }
    }
  }

  lemma {:induction false} FoundExactly(name: bytes, k: Kind)
    ensures Lookup(Lower(name), 0) == Some(k) <==> Spells(name, Name(k))
  {
    SpellsExactly(name, k);
    LookupSound(Lower(name), 0);
    LookupFinds(k);
  }

  lemma {:induction false} DecodesAs(db: nat, line: seq<bytes>, luck: nat, k: Kind)
    requires line != [] && Spells(line[0], Name(k))
    ensures Decode(db, line, luck) == if ValidArity(Arity(k), line) then Build(k, db, line[1..], luck) else None
  {
    FoundExactly(line[0], k);
  }

  lemma {:induction false} DecodesGet(db: nat, line: seq<bytes>, luck: nat)
    requires line != [] && Spells(line[0], [71, 69, 84])
    ensures Decode(db, line, luck) == if |line| == 2 then Some(Get(Key(db, line[1]))) else None
  {
    DecodesAs(db, line, luck, KGet);
  }

  lemma {:induction false} DecodesSet(db: nat, line: seq<bytes>, luck: nat)
    requires line != [] && Spells(line[0], [83, 69, 84])
    ensures Decode(db, line, luck) == if |line| == 3 then Some(Set(Key(db, line[1]), line[2])) else None
  {
    DecodesAs(db, line, luck, KSet);
  }

  lemma {:induction false} DecodesSetNX(db: nat, line: seq<bytes>, luck: nat)
    requires line != [] && Spells(line[0], [83, 69, 84, 78, 88])
    ensures Decode(db, line, luck) == if |line| == 3 then Some(SetNX(Key(db, line[1]), line[2])) else None
  {
    DecodesAs(db, line, luck, KSetNX);
  }

  lemma {:induction false} DecodesGetSet(db: nat, line: seq<bytes>, luck: nat)
    requires line != [] && Spells(line[0], [71, 69, 84, 83, 69, 84])
    ensures Decode(db, line, luck) == if |line| == 3 then Some(GetSet(Key(db, line[1]), line[2])) else None
  {
    DecodesAs(db, line, luck, KGetSet);
  }

  lemma {:induction false} DecodesDel(db: nat, line: seq<bytes>, luck: nat)
    requires line != [] && Spells(line[0], [68, 69, 76])
    ensures Decode(db, line, luck) ==
              if |line| >= 2 then Some(Del(seq(|line| - 1, i requires 0 <= i < |line| - 1 => Key(db, line[i + 1])))) else None
  {
    DecodesAs(db, line, luck, KDel);
    if |line| >= 2 { assert KeysOf(db, line[1..]) == seq(|line| - 1, i requires 0 <= i < |line| - 1 => Key(db, line[i + 1])); }
  }

  /** The source comes first. */
  lemma {:induction false} DecodesRename(db: nat, line: seq<bytes>, luck: nat)
    requires line != [] && Spells(line[0], [82, 69, 78, 65, 77, 69])
    ensures Decode(db, line, luck) == if |line| == 3 then Some(Rename(Key(db, line[1]), Key(db, line[2]))) else None
  {
    DecodesAs(db, line, luck, KRename);
  }

  lemma {:induction false} DecodesRenameNX(db: nat, line: seq<bytes>, luck: nat)
    requires line != [] && Spells(line[0], [82, 69, 78, 65, 77, 69, 78, 88])
    ensures Decode(db, line, luck) == if |line| == 3 then Some(RenameNX(Key(db, line[1]), Key(db, line[2]))) else None
  {
    DecodesAs(db, line, luck, KRenameNX);
  }

  lemma {:induction false} DecodesSAdd(db: nat, line: seq<bytes>, luck: nat)
    requires line != [] && Spells(line[0], [83, 65, 68, 68])
    ensures Decode(db, line, luck) == if |line| >= 3 then Some(SAdd(Key(db, line[1]), line[2..])) else None
  {
    DecodesAs(db, line, luck, KSAdd);
    if |line| >= 3 { assert line[1..][1..] == line[2..]; }
  }

  lemma {:induction false} DecodesSRem(db: nat, line: seq<bytes>, luck: nat)
    requires line != [] && Spells(line[0], [83, 82, 69, 77])
    ensures Decode(db, line, luck) == if |line| >= 3 then Some(SRem(Key(db, line[1]), line[2..])) else None
  {
    DecodesAs(db, line, luck, KSRem);
    if |line| >= 3 { assert line[1..][1..] == line[2..]; }
  }

  /** The destination comes first. */
  lemma {:induction false} DecodesSUnionStore(db: nat, line: seq<bytes>, luck: nat)
    requires line != [] && Spells(line[0], [83, 85, 78, 73, 79, 78, 83, 84, 79, 82, 69])
    ensures Decode(db, line, luck) ==
              if |line| < 3 then None
              else Some(SUnionStore(Key(db, line[1]), seq(|line| - 2, i requires 0 <= i < |line| - 2 => Key(db, line[i + 2])), luck))
  {
    DecodesAs(db, line, luck, KSUnionStore);
    if |line| >= 3 {
      assert line[1..][1..] == line[2..];
      assert KeysOf(db, line[2..]) == seq(|line| - 2, i requires 0 <= i < |line| - 2 => Key(db, line[i + 2]));
    }
  }

  lemma {:induction false} PairsAre(line: seq<bytes>)
    requires |line| >= 2 && |line| % 2 == 0
    ensures PairsOf(line[1..][1..]) ==
              seq(|line| / 2 - 1, i requires 0 <= i < |line| / 2 - 1 => (line[2 * i + 2], line[2 * i + 3]))
  {
    assert line[1..][1..] == line[2..];
  }

  lemma {:induction false} BuildsZAdd(db: nat, line: seq<bytes>, luck: nat)
    requires |line| >= 4
    ensures Build(KZAdd, db, line[1..], luck) ==
              if |line| % 2 != 0 then None
              else Some(ZAdd(Key(db, line[1]),
                             seq(|line| / 2 - 1, i requires 0 <= i < |line| / 2 - 1 => (line[2 * i + 2], line[2 * i + 3]))))
  {
    if |line| % 2 == 0 { PairsAre(line); }
  }

  /** Scores come in front of their members. */
  lemma {:induction false} DecodesZAdd(db: nat, line: seq<bytes>, luck: nat)
    requires line != [] && Spells(line[0], [90, 65, 68, 68])
    ensures Decode(db, line, luck) ==
              if |line| < 4 || |line| % 2 != 0 then None
              else Some(ZAdd(Key(db, line[1]),
                             seq(|line| / 2 - 1, i requires 0 <= i < |line| / 2 - 1 => (line[2 * i + 2], line[2 * i + 3]))))
  {
    DecodesAs(db, line, luck, KZAdd);
    if |line| >= 4 { BuildsZAdd(db, line, luck); }
  }

  lemma {:induction false} DecodesFlushDB(db: nat, line: seq<bytes>, luck: nat)
    requires line != [] && Spells(line[0], [70, 76, 85, 83, 72, 68, 66])
    ensures Decode(db, line, luck) == if |line| == 1 then Some(FlushDB(db)) else None
  {
    DecodesAs(db, line, luck, KFlushDB);
  }

  /** Any other name is unknown. */
  lemma {:induction false} DecodesNothingElse(db: nat, line: seq<bytes>, luck: nat)
    requires line != []
    requires forall capitals :: capitals in {
               [71, 69, 84],
               [83, 69, 84],
               [83, 69, 84, 78, 88],
               [71, 69, 84, 83, 69, 84],
               [68, 69, 76],
               [82, 69, 78, 65, 77, 69],
               [82, 69, 78, 65, 77, 69, 78, 88],
               [83, 65, 68, 68],
               [83, 82, 69, 77],
               [83, 85, 78, 73, 79, 78, 83, 84, 79, 82, 69],
               [90, 65, 68, 68],
               [70, 76, 85, 83, 72, 68, 66]
             } ==> !Spells(line[0], capitals)
    ensures Decode(db, line, luck) == None
  {
    var found := Lookup(Lower(line[0]), 0);
    if found.Some? { FoundExactly(line[0], found.value); }
  }
}
