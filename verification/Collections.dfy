/** Sequences as listings of sets. */
module Collections {

  function Elements<T>(q: seq<T>): set<T> {
    set x | x in q
  }

  /** The list holds every element of the set exactly once. */
  ghost predicate Lists<T>(q: seq<T>, s: set<T>) {
    |q| == |s| && Elements(q) == s
  }

  lemma {:induction false} ElementsMore<T>(q: seq<T>, x: T)
    ensures Elements(q + [x]) == Elements(q) + {x}
  {
  }

  lemma {:induction false} ElementsConcat<T>(q: seq<T>, r: seq<T>)
    ensures Elements(q + r) == Elements(q) + Elements(r)
  {
  }

  lemma {:induction false} ElementsAtMost<T>(q: seq<T>)
    ensures |Elements(q)| <= |q|
  {
    if q != [] {
      var n := |q| - 1;
      ElementsAtMost(q[..n]);
      assert q == q[..n] + [q[n]];
      ElementsMore(q[..n], q[n]);
    }
  }

  lemma {:induction false} SubsetSize<T>(a: set<T>, b: set<T>)
    requires a <= b
    ensures |a| <= |b|
  {
    assert b == a + (b - a);
  }

  /** A list as long as the set it holds repeats nothing. */
  lemma {:induction false} ListsOnce<T>(q: seq<T>, s: set<T>)
    requires Lists(q, s)
    ensures forall i, j :: 0 <= i < j < |q| ==> q[i] != q[j]
  {
    forall i, j | 0 <= i < j < |q| ensures q[i] != q[j] {
      if q[i] == q[j] {
        var t := q[..j] + q[j + 1..];
        assert q == q[..j] + [q[j]] + q[j + 1..];
        assert t[i] == q[j];
        assert Elements(t) == Elements(q);
        ElementsAtMost(t);
      }
    }
  }

  lemma {:induction false} ListsMore<T>(q: seq<T>, s: set<T>, x: T)
    requires Lists(q, s) && x !in s
    ensures Lists(q + [x], s + {x}) && Lists([x] + q, s + {x})
  {
    ElementsMore(q, x);
    ElementsConcat([x], q);
  }

  lemma {:induction false} ListsBoth<T>(q: seq<T>, s: set<T>, r: seq<T>, t: set<T>)
    requires Lists(q, s) && Lists(r, t) && s !! t
    ensures Lists(q + r, s + t)
  {
    ElementsConcat(q, r);
  }

  lemma {:induction false} ListingExists<T>(s: set<T>) returns (q: seq<T>)
    ensures Lists(q, s)
    decreases |s|
  {
    if s == {} {
      q := [];
    } else {
      var x :| x in s;
      var r := ListingExists(s - {x});
      ListsMore(r, s - {x}, x);
      assert s - {x} + {x} == s;
      q := r + [x];
    }
  }

  ghost function Listing<T(!new)>(s: set<T>): (q: seq<T>)
    ensures Lists(q, s)
  {
    assert exists q :: Lists(q, s) by { var q := ListingExists(s); }
    var q :| Lists(q, s);
    q
  }

  /** A listing of the members of a set, in whatever order the set is gone through. */
  method ListOf<T(==)>(s: set<T>) returns (q: seq<T>)
    ensures Lists(q, s)
  {
    q := [];
    var rest := s;
    while rest != {}
      invariant rest <= s && Lists(q, s - rest)
      decreases |rest|
    {
      var m :| m in rest;
      ListsMore(q, s - rest, m);
      q, rest := q + [m], rest - {m};
      assert s - rest == (s - (rest + {m})) + {m};
    }
  }
}
