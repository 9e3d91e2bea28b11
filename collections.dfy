/** Sequences read as sets: the order in which Python iterates a set is not
    specified, so the model enumerates a set in some duplicate-free order. */
module Collections {

  /** The elements of `s`, as a set. */
  function Elems<T>(s: seq<T>): (r: set<T>)
  {
    set x | x in s
  }

  /** No element occurs twice in `s`. */
  predicate NoDup<T(==)>(s: seq<T>)
  {
    forall i, j :: 0 <= i < j < |s| ==> s[i] != s[j]
  }

  /** `s` lists every element of `xs` exactly once, in some order. */
  predicate Enumerates<T(==)>(s: seq<T>, xs: set<T>)
  {
    NoDup(s) && Elems(s) == xs
  }

  /** A sequence has no elements exactly when it is empty. */
  lemma ElemsEmpty<T>(s: seq<T>)
    ensures Elems(s) == {} <==> s == []
  {
    if s != [] {
      assert s[0] in Elems(s);
    }
  }

  /** The elements of a concatenation are those of its parts. */
  lemma ElemsAppend<T>(a: seq<T>, b: seq<T>)
    ensures Elems(a + b) == Elems(a) + Elems(b)
  {
    assert forall x :: x in a + b <==> x in a || x in b;
  }

  /** Two duplicate-free sequences with disjoint elements concatenate to a
      duplicate-free sequence. */
  lemma {:induction false} NoDupAppend<T>(a: seq<T>, b: seq<T>)
    requires NoDup(a) && NoDup(b) && Elems(a) !! Elems(b)
    ensures NoDup(a + b) && Elems(a + b) == Elems(a) + Elems(b)
  {
    forall i, j | 0 <= i < j < |a + b|
      ensures (a + b)[i] != (a + b)[j]
    {
      if j < |a| {
      } else if i < |a| {
        assert (a + b)[i] in Elems(a) && (a + b)[j] in Elems(b);
      } else {
        assert (a + b)[i] == b[i - |a|] && (a + b)[j] == b[j - |a|];
      }
    }
    assert forall x :: x in a + b <==> x in a || x in b;
  }

  /** A duplicate-free sequence has as many elements as its length. */
  lemma {:induction false} NoDupCard<T>(s: seq<T>)
    requires NoDup(s)
    ensures |Elems(s)| == |s|
  {
    if s != [] {
      var t := s[1..];
      assert NoDup(t) by {
        forall i, j | 0 <= i < j < |t|
          ensures t[i] != t[j]
        {
          assert t[i] == s[i + 1] && t[j] == s[j + 1];
        }
      }
      NoDupCard(t);
      assert Elems(s) == Elems(t) + {s[0]};
      assert s[0] !in Elems(t);
    }
  }

  /** Removing a subset removes its number of elements. */
  lemma CardDifference<T>(a: set<T>, b: set<T>)
    requires b <= a
    ensures |a - b| == |a| - |b|
  {
    assert b - a == {} && a * b == b && a + b == a;
  }

  /** `s` lists, once each, the elements of `all` outside `rest`: an
      enumeration of `all` in progress. */
  predicate Partitions<T(==)>(s: seq<T>, rest: set<T>, all: set<T>)
  {
    NoDup(s) && Elems(s) + rest == all && Elems(s) !! rest
  }

  /** Moving an element of `rest` to the end of `s` keeps the partition;
      with nothing left, `s` enumerates `all`. */
  lemma EnumerationStep<T>(s: seq<T>, rest: set<T>, all: set<T>, x: T)
    requires Partitions(s, rest, all) && x in rest
    ensures Partitions(s + [x], rest - {x}, all)
  {
    NoDupAppend(s, [x]);
  }

  /** Iterates over a set in an unspecified order, as `for x in s` does on a
      Python set, returning the order it used. */
  method Enumerate<T(==)>(xs: set<T>) returns (s: seq<T>)
    ensures Enumerates(s, xs)
  {
    s := [];
    var rest := xs;
    while rest != {}
      invariant Partitions(s, rest, xs)
      decreases rest
    {
      var x :| x in rest;
      EnumerationStep(s, rest, xs, x);
      s := s + [x];
      rest := rest - {x};
    }
  }
}
