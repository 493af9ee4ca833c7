/** How RWLocks and RWUnLocks of datastruct/dict/concurrent_dict.go compute which shard to lock when, and how. */
module LockPlan {
  import opened Programs
  import opened LockProtocol

  ghost function Homes(keys: seq<Key>, home: Key -> nat): set<nat> {
    set k | k in keys :: home(k)
  }

  function Reversed<T>(q: seq<T>): (r: seq<T>)
    ensures |r| == |q| && forall i :: 0 <= i < |q| ==> r[i] == q[|q| - 1 - i]
  {
    seq(|q|, i requires 0 <= i < |q| => q[|q| - 1 - i])
  }

  /** Insert into a sorted slice, ascending or descending. */
  method Place(q: seq<nat>, x: nat, reverse: bool) returns (r: seq<nat>)
    requires x !in q && if reverse then IsAscending(Reversed(q)) else IsAscending(q)
    ensures if reverse then IsAscending(Reversed(r)) else IsAscending(r)
    ensures forall y :: y in r <==> y in q || y == x
  {
    assert reverse ==> forall i, j :: 0 <= i < j < |q| ==> q[i] > q[j] by {
      if reverse { DescendingFrom(q); }
    }
    var i := 0;
    while i < |q| && (if reverse then q[i] > x else q[i] < x)
      invariant 0 <= i <= |q|
      invariant forall j :: 0 <= j < i ==> if reverse then q[j] > x else q[j] < x
    {
      i := i + 1;
    }
    r := q[..i] + [x] + q[i..];
    assert forall j :: 0 <= j < |r| ==> r[j] == if j < i then q[j] else if j == i then x else q[j - 1];
    forall y ensures y in r <==> y in q || y == x {
      assert q == q[..i] + q[i..];
    }
    if reverse { AscendingFrom(r); }
  }

  lemma {:induction false} DescendingFrom(q: seq<nat>)
    requires IsAscending(Reversed(q))
    ensures forall i, j :: 0 <= i < j < |q| ==> q[i] > q[j]
  {
    forall i, j | 0 <= i < j < |q| ensures q[i] > q[j] {
      assert Reversed(q)[|q| - 1 - j] < Reversed(q)[|q| - 1 - i];
    }
  }

  lemma {:induction false} AscendingFrom(q: seq<nat>)
    requires forall i, j :: 0 <= i < j < |q| ==> q[i] > q[j]
    ensures IsAscending(Reversed(q))
  {
  }

  /** The shards of some keys without repetition, in ascending or descending order. */
  method ToLockIndices(keys: seq<Key>, home: Key -> nat, reverse: bool) returns (indices: seq<nat>)
    ensures IsOrderOf(if reverse then Reversed(indices) else indices, Homes(keys, home))
  {
    var indexSet: set<nat> := {};
    for i := 0 to |keys|
      invariant indexSet == Homes(keys[..i], home)
    {
      assert keys[..i + 1] == keys[..i] + [keys[i]];
      indexSet := indexSet + {home(keys[i])};
    }
    assert keys[..|keys|] == keys;
    indices := [];
    var rest := indexSet;
    while rest != {}
      invariant rest <= indexSet && forall x :: x in indices <==> x in indexSet - rest
      invariant if reverse then IsAscending(Reversed(indices)) else IsAscending(indices)
      decreases |rest|
    {
      var x :| x in rest;
      indices := Place(indices, x, reverse);
      rest := rest - {x};
    }
    if reverse { ReversedMembers(indices); }
  }

  lemma {:induction false} ReversedMembers<T>(q: seq<T>)
    ensures forall x :: x in Reversed(q) <==> x in q
  {
    forall x ensures x in Reversed(q) <==> x in q {
      if x in q {
        var i :| 0 <= i < |q| && q[i] == x;
        assert Reversed(q)[|q| - 1 - i] == x;
      }
    }
  }

  /** One lock operation: a shard and whether its lock is taken or given back in write mode. */
  datatype LockOp = LockOp(shard: nat, write: bool)

  /** The operations on the shards `q` of a command in turn. */
  ghost predicate IsPlan<C>(sem: Sem<C>, c: C, q: seq<nat>, plan: seq<LockOp>) {
    |plan| == |q| && forall i :: 0 <= i < |q| ==> plan[i] == LockOp(q[i], q[i] in WriteShards(sem, c))
  }

  method WriteIndexSet<C>(sem: Sem<C>, c: C) returns (w: set<nat>)
    ensures w == WriteShards(sem, c)
  {
    w := {};
    var keys := sem.writeKeys(c);
    for i := 0 to |keys|
      invariant w == Homes(keys[..i], sem.home)
    {
      assert keys[..i + 1] == keys[..i] + [keys[i]];
      w := w + {sem.home(keys[i])};
    }
    assert keys[..|keys|] == keys;
  }

  method Operations<C>(sem: Sem<C>, c: C, indices: seq<nat>) returns (plan: seq<LockOp>)
    ensures IsPlan(sem, c, indices, plan)
  {
    var w := WriteIndexSet(sem, c);
    plan := [];
    for i := 0 to |indices|
      invariant |plan| == i && forall j :: 0 <= j < i ==> plan[j] == LockOp(indices[j], indices[j] in WriteShards(sem, c))
    {
      plan := plan + [LockOp(indices[i], indices[i] in w)];
    }
  }

  lemma {:induction false} AllHomes<C>(sem: Sem<C>, c: C)
    ensures Homes(sem.writeKeys(c) + sem.readKeys(c), sem.home) == Shards(sem, c)
  {
  }

  /** RWLocks goes through the command's shards in the order in which the protocol takes them. */
  method RWLocks<C>(sem: Sem<C>, c: C) returns (plan: seq<LockOp>)
    ensures IsPlan(sem, c, LockOrder(sem, c), plan)
  {
    var indices := ToLockIndices(sem.writeKeys(c) + sem.readKeys(c), sem.home, false);
    AllHomes(sem, c);
    OrderUnique(indices, LockOrder(sem, c), Shards(sem, c));
    plan := Operations(sem, c, indices);
  }

  /** RWUnLocks gives back the same shards in the same modes, the other way round. */
  method RWUnLocks<C>(sem: Sem<C>, c: C) returns (plan: seq<LockOp>)
    ensures IsPlan(sem, c, LockOrder(sem, c), Reversed(plan))
  {
    var indices := ToLockIndices(sem.writeKeys(c) + sem.readKeys(c), sem.home, true);
    AllHomes(sem, c);
    OrderUnique(Reversed(indices), LockOrder(sem, c), Shards(sem, c));
    plan := Operations(sem, c, indices);
    assert Reversed(Reversed(indices)) == indices;
  }
}
