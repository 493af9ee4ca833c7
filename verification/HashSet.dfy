/** The set of strings of datastruct/set/hash_set.go: an integer set at first, a hash table later. */
module HashSet {
  import opened Bytes
  import opened Collections
  import opened Decimal
  import opened Values
  import opened Pouring
  import IS = IntSet

  /** The texts of some numbers. */
  ghost function Texts(values: set<int>): set<bytes> {
    set v | v in values :: FormatInt(v)
  }

  ghost predicate AllInt64(values: set<int>) {
    forall v :: v in values ==> MIN_INT64 <= v <= MAX_INT64
  }

  lemma {:induction false} TextsOneMore(values: seq<int>, i: nat)
    requires i < |values|
    ensures Texts(Elements(values[..i + 1])) == Texts(Elements(values[..i])) + {FormatInt(values[i])}
  {
    assert values[..i + 1] == values[..i] + [values[i]];
    assert Elements(values[..i + 1]) == Elements(values[..i]) + {values[i]};
  }

  lemma {:induction false} TextIn(values: set<int>, v: int)
    requires AllInt64(values) && MIN_INT64 <= v <= MAX_INT64
    ensures FormatInt(v) in Texts(values) <==> v in values
  {
    if FormatInt(v) in Texts(values) {
      var w :| w in values && FormatInt(w) == FormatInt(v);
      FormatIntInjective(v, w);
    }
  }

  lemma {:induction false} TextsAdd(values: set<int>, v: int)
    ensures Texts(values + {v}) == Texts(values) + {FormatInt(v)}
  {
  }

  lemma {:induction false} TextsRemove(values: set<int>, v: int)
    requires AllInt64(values) && MIN_INT64 <= v <= MAX_INT64
    ensures Texts(values - {v}) == Texts(values) - {FormatInt(v)}
  {
    forall t ensures t in Texts(values - {v}) <==> t in Texts(values) - {FormatInt(v)} {
      if t in Texts(values) && t != FormatInt(v) {
        var w :| w in values && FormatInt(w) == t;
        assert w in values - {v};
      }
      if t in Texts(values - {v}) {
        var w :| w in values - {v} && FormatInt(w) == t;
        if t == FormatInt(v) { FormatIntInjective(v, w); }
      }
    }
  }

  lemma {:induction false} TextsCount(q: seq<int>)
    requires IS.Ascending(q) && AllInt64(Elements(q))
    ensures |Texts(Elements(q))| == |q|
  {
    if q == [] {
      assert Texts(Elements(q)) == {};
    } else {
      var n := |q| - 1;
      IS.DropLast(q);
      assert q[n] in Elements(q);
      TextsRemove(Elements(q), q[n]);
      TextsCount(q[..n]);
      assert FormatInt(q[n]) in Texts(Elements(q));
    }
  }

  /** In integer mode only canonical texts are members. */
  lemma {:induction false} TextsCanonical(values: set<int>, t: bytes)
    requires AllInt64(values) && t in Texts(values)
    ensures IsCanonical(t)
  {
    var v :| v in values && FormatInt(v) == t;
    ParseIntAfterFormat(v);
  }

  class HashSet {
    var dict: set<bytes>
    const intset: IS.IntSet
    var isIntset: bool

    ghost predicate Valid()
      reads this, intset
    {
      intset.Valid() && AllInt64(intset.Model()) && (isIntset ==> dict == {} && intset.length <= MAX_INTSET_ENTRIES)
    }

    ghost function Model(): set<bytes>
      reads this, intset
      requires Valid()
    {
      if isIntset then Texts(intset.Model()) else dict
    }

    /** What the set stands for, with its mode. */
    ghost function State(): SetState
      reads this, intset
      requires Valid()
    {
      SetState(Model(), isIntset)
    }

    constructor ()
      ensures Valid() && State() == NO_MEMBERS && fresh(intset)
    {
      dict := {};
      intset := new IS.IntSet();
      isIntset := true;
    }

    /**
     The set gains what it takes the member for. That is the member itself, and the set is what a set of strings
     would be, exactly when the member is faithful in the current mode.
     */
    method Add(member: bytes) returns (n: int)
      requires Valid()
      modifies this, intset
      ensures Valid() && State() == With(old(State()), member)
      ensures n == if Holds(old(State()), member) then 0 else 1
      ensures Model() == old(Model()) + {member} <==> Faithful(old(isIntset), member)
      ensures isIntset <==> old(isIntset) && ParseInt(member).Some? && |Model()| <= 512
    {
      StateIsSound();
      WithExactly(State(), member);
      ModeExactly(State(), member);
      if isIntset {
        match ParseInt(member)
        case Some(val) =>
          n := AddNumber(member, val);
          return;
        case None =>
          ConvertToHashTable();
      }
      if member in dict {
        return 0;
      }
      dict := dict + {member};
      return 1;
    }

    method AddNumber(member: bytes, val: int) returns (n: int)
      requires Valid() && isIntset && ParseInt(member) == Some(val)
      modifies this, intset
      ensures Valid() && State() == With(old(State()), member)
      ensures n == if Holds(old(State()), member) then 0 else 1
    {
      TextsAdd(intset.Model(), val);
      TextIn(intset.Model(), val);
      var ok := intset.Add(val);
      TextsCount(intset.Values());
      if ok {
        if intset.length > MAX_INTSET_ENTRIES {
          ConvertToHashTable();
        }
        return 1;
      }
      return 0;
    }

    lemma StateIsSound()
      requires Valid()
      ensures Sound(State())
    {
      if isIntset {
        TextsCount(intset.Values());
        forall m | m in Model() ensures IsCanonical(m) { TextsCanonical(intset.Model(), m); }
      }
    }

    /** Every integer goes into the hash table as its decimal text. */
    method ConvertToHashTable()
      requires intset.Valid() && AllInt64(intset.Model()) && (isIntset ==> dict == {})
      modifies this
      ensures Valid() && !isIntset
      ensures dict == if old(isIntset) then Texts(intset.Model()) else old(dict)
    {
      if !isIntset {
        return;
      }
      var values := intset.ToSlice();
      for i := 0 to |values|
        invariant intset.Valid() && values == intset.Values() && isIntset
        invariant dict == Texts(Elements(values[..i]))
      {
        TextsOneMore(values, i);
        dict := dict + {FormatInt(values[i])};
      }
      assert values[..|values|] == values;
      isIntset := false;
    }

    method Contains(member: bytes) returns (found: bool)
      requires Valid()
      ensures found == Holds(State(), member)
      ensures found == (member in Model()) <==> Faithful(isIntset, member) || !found
    {
      StateIsSound();
      WithExactly(State(), member);
      if isIntset {
        match ParseInt(member)
        case Some(val) =>
          TextIn(intset.Model(), val);
          found := intset.Contains(val);
          return;
        case None => return false;
      }
      return member in dict;
    }

    /** The set loses what it takes the member for. */
    method Remove(member: bytes) returns (n: int)
      requires Valid()
      modifies this, intset
      ensures Valid() && State() == Without(old(State()), member)
      ensures n == if Holds(old(State()), member) then 1 else 0
      ensures Model() == old(Model()) - {member} <==> Faithful(isIntset, member) || n == 0
    {
      StateIsSound();
      WithExactly(State(), member);
      if isIntset {
        match ParseInt(member)
        case Some(val) =>
          TextsRemove(intset.Model(), val);
          TextIn(intset.Model(), val);
          var ok := intset.Remove(val);
          return if ok then 1 else 0;
        case None =>
      }
      if member in dict {
        dict := dict - {member};
        return 1;
      }
      return 0;
    }

    method Len() returns (n: nat)
      requires Valid()
      ensures n == |Model()|
    {
      if isIntset {
        TextsCount(intset.Values());
        IS.AscendingCount(intset.Values());
        n := intset.Len();
        return;
      }
      return |dict|;
    }

    /** Every member once, in whatever order the hash table is gone through. */
    method Members() returns (r: seq<bytes>)
      requires Valid()
      ensures Elements(r) == Model() && |r| == |Model()|
    {
      r := [];
      if isIntset {
        var values := intset.ToSlice();
        for i := 0 to |values|
          invariant |r| == i && Elements(r) == Texts(Elements(values[..i]))
        {
          TextsOneMore(values, i);
          ElementsMore(r, FormatInt(values[i]));
          r := r + [FormatInt(values[i])];
        }
        assert values[..|values|] == values;
        TextsCount(values);
        return;
      }
      var rest := dict;
      while rest != {}
        invariant rest <= dict && Elements(r) == dict - rest && |r| == |dict| - |rest|
        decreases |rest|
      {
        var m :| m in rest;
        ElementsMore(r, m);
        r := r + [m];
        rest := rest - {m};
      }
    }
  }

  // ----- whole runs -----

  datatype Op = AddOp(member: bytes) | RemoveOp(member: bytes)

  /** The same operations on a mathematical set of strings. */
  function SetAfter(ops: seq<Op>): set<bytes> {
    if ops == [] then {} else
      var before, op := SetAfter(ops[..|ops| - 1]), ops[|ops| - 1];
      if op.AddOp? then before + {op.member} else before - {op.member}
  }

  function Answer(ops: seq<Op>, i: nat): int
    requires i < |ops|
  {
    if (ops[i].member in SetAfter(ops[..i])) == ops[i].RemoveOp? then 1 else 0
  }

  /** One operation with a faithful member does what it does on a mathematical set. */
  method RunOp(s: HashSet, op: Op) returns (n: int)
    requires s.Valid() && Faithful(true, op.member)
    modifies s, s.intset
    ensures s.Valid() && s.Model() == if op.AddOp? then old(s.Model()) + {op.member} else old(s.Model()) - {op.member}
    ensures n == if (op.member in old(s.Model())) == op.RemoveOp? then 1 else 0
  {
    s.StateIsSound();
    WithExactly(s.State(), op.member);
    if op.AddOp? {
      n := s.Add(op.member);
    } else {
      n := s.Remove(op.member);
    }
  }

  /**
   Any operations on a new set, through the integer mode and both kinds of conversion: with members that are not
   integers or are canonical decimals, every answer is that of a mathematical set of strings.
   */
  method RunOps(ops: seq<Op>) returns (answers: seq<int>, members: seq<bytes>)
    requires forall i :: 0 <= i < |ops| ==> Faithful(true, ops[i].member)
    ensures |answers| == |ops| && forall i :: 0 <= i < |ops| ==> answers[i] == Answer(ops, i)
    ensures Elements(members) == SetAfter(ops) && |members| == |SetAfter(ops)|
  {
    var s := new HashSet();
    answers := [];
    for i := 0 to |ops|
      invariant fresh(s) && fresh(s.intset) && s.Valid() && s.Model() == SetAfter(ops[..i]) && |answers| == i
      invariant forall j :: 0 <= j < i ==> answers[j] == Answer(ops, j)
    {
      assert ops[..i + 1][..i] == ops[..i];
      var n := RunOp(s, ops[i]);
      answers := answers + [n];
    }
    assert ops[..|ops|] == ops;
    members := s.Members();
  }

  /** "007" added behind "7": the integer set has it already, a hash table does not. */
  method SevenAndItsZeros() returns (asIntset: int, asTable: int)
    ensures asIntset == 0 && asTable == 1
  {
    asIntset := SevenInIntset();
    asTable := SevenInTable();
  }

  method SevenInIntset() returns (n: int)
    ensures n == 0
  {
    Sevens();
    var s := new HashSet();
    var _ := s.Add(SEVEN);
    assert s.Model() == {SEVEN};
    n := s.Add(ZEROS_SEVEN);
  }

  method SevenInTable() returns (n: int)
    ensures n == 1
  {
    Sevens();
    var s := new HashSet();
    var _ := s.Add(X);
    var _ := s.Add(SEVEN);
    n := s.Add(ZEROS_SEVEN);
  }
}
