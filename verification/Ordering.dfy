/** Python's order on strings, lists and tuples, and its stable sort. */
module Ordering {

  // ----- Orders -----

  function StringLeq(a: string, b: string): bool {
    a == [] || (b != [] && (a[0] < b[0] || (a[0] == b[0] && StringLeq(a[1..], b[1..]))))
  }

  function ListLeq(a: seq<string>, b: seq<string>): bool {
    || a == []
    || (b != [] && if a[0] == b[0] then ListLeq(a[1..], b[1..]) else StringLeq(a[0], b[0]))
  }

  /** Position `k` is the first at which two sequences differ. */
  predicate DifferAt<T(==)>(a: seq<T>, b: seq<T>, k: nat) {
    k < |a| && k < |b| && a[k] != b[k] && forall i | 0 <= i < k :: a[i] == b[i]
  }

  /**
  A string is not after another when it is a beginning of it or has the smaller
  character where they first differ.
  */
  lemma {:induction false} StringLeqExactly(a: string, b: string)
    ensures StringLeq(a, b) <==> a <= b || exists k: nat :: DifferAt(a, b, k) && a[k] < b[k]
  {
    if a != [] && b != [] {
      if a[0] == b[0] {
        StringLeqExactly(a[1..], b[1..]);
        Shifted(a, b);
        if k: nat :| DifferAt(a[1..], b[1..], k) && a[1..][k] < b[1..][k] {
          assert DifferAt(a, b, k + 1);
        }
        if k: nat :| DifferAt(a, b, k) && a[k] < b[k] {
          assert DifferAt(a[1..], b[1..], k - 1);
        }
      } else {
        assert DifferAt(a, b, 0);
      }
    }
  }

  lemma Shifted<T>(a: seq<T>, b: seq<T>)
    requires a != [] && b != [] && a[0] == b[0]
    ensures a <= b <==> a[1..] <= b[1..]
    ensures forall k: nat :: DifferAt(a, b, k + 1) <==> DifferAt(a[1..], b[1..], k)
  {
    assert a == [a[0]] + a[1..] && b == [b[0]] + b[1..];
    forall k: nat
      ensures DifferAt(a, b, k + 1) <==> DifferAt(a[1..], b[1..], k)
    {
      assert forall i | 0 < i < |a| :: a[i] == a[1..][i - 1];
      assert forall i | 0 < i < |b| :: b[i] == b[1..][i - 1];
      assert forall i | 0 <= i < |a| - 1 :: a[1..][i] == a[i + 1];
      assert forall i | 0 <= i < |b| - 1 :: b[1..][i] == b[i + 1];
    }
  }

  lemma {:induction false} StringTotal(a: string, b: string)
    ensures StringLeq(a, b) || StringLeq(b, a)
    ensures StringLeq(a, b) && StringLeq(b, a) ==> a == b
  {
    if a != [] && b != [] && a[0] == b[0] {
      StringTotal(a[1..], b[1..]);
      assert a == [a[0]] + a[1..] && b == [b[0]] + b[1..];
    }
  }

  lemma {:induction false} StringTransitive(a: string, b: string, c: string)
    requires StringLeq(a, b) && StringLeq(b, c)
    ensures StringLeq(a, c)
  {
    if a != [] && a[0] == b[0] == c[0] {
      StringTransitive(a[1..], b[1..], c[1..]);
    }
  }

  lemma {:induction false} ListTotal(a: seq<string>, b: seq<string>)
    ensures ListLeq(a, b) || ListLeq(b, a)
    ensures ListLeq(a, b) && ListLeq(b, a) ==> a == b
  {
    hide StringLeq;
    if a != [] && b != [] {
      StringTotal(a[0], b[0]);
      if a[0] == b[0] {
        ListTotal(a[1..], b[1..]);
        assert a == [a[0]] + a[1..] && b == [b[0]] + b[1..];
      }
    }
  }

  lemma {:induction false} ListTransitive(a: seq<string>, b: seq<string>, c: seq<string>)
    requires ListLeq(a, b) && ListLeq(b, c)
    ensures ListLeq(a, c)
  {
    hide StringLeq;
    if a != [] {
      if a[0] == b[0] == c[0] {
        ListTransitive(a[1..], b[1..], c[1..]);
      } else if a[0] != b[0] && b[0] != c[0] {
        StringTransitive(a[0], b[0], c[0]);
        StringTotal(a[0], b[0]);
      }
    }
  }

  // ----- Sorting -----

  ghost predicate TotalPreorder<T(!new)>(leq: (T, T) -> bool) {
    && (forall a, b :: leq(a, b) || leq(b, a))
    && (forall a, b, c :: leq(a, b) && leq(b, c) ==> leq(a, c))
  }

  predicate Ordered<T>(leq: (T, T) -> bool, s: seq<T>) {
    forall i, j | 0 <= i < j < |s| :: leq(s[i], s[j])
  }

  /** After every element that is not greater. */
  function Insert<T>(leq: (T, T) -> bool, s: seq<T>, x: T): (r: seq<T>)
    ensures multiset(r) == multiset(s) + multiset{x}
  {
    if s == [] || leq(s[|s| - 1], x) then s + [x]
    else
      assert s == s[..|s| - 1] + [s[|s| - 1]];
      Insert(leq, s[..|s| - 1], x) + [s[|s| - 1]]
  }

  function Sort<T>(leq: (T, T) -> bool, s: seq<T>): (r: seq<T>)
    ensures multiset(r) == multiset(s)
  {
    if s == [] then []
    else
      assert s == s[..|s| - 1] + [s[|s| - 1]];
      Insert(leq, Sort(leq, s[..|s| - 1]), s[|s| - 1])
  }

  lemma {:induction false} InsertOrders<T(!new)>(leq: (T, T) -> bool, s: seq<T>, x: T)
    requires TotalPreorder(leq) && Ordered(leq, s)
    ensures Ordered(leq, Insert(leq, s, x))
    decreases |s|
  {
    if s == [] {
    } else if leq(s[|s| - 1], x) {
      forall i | 0 <= i < |s|
        ensures leq(s[i], x)
      {
        assert i < |s| - 1 ==> leq(s[i], s[|s| - 1]);
      }
    } else {
      var rest, last := s[..|s| - 1], s[|s| - 1];
      InsertOrders(leq, rest, x);
      var r := Insert(leq, rest, x);
      forall i | 0 <= i < |r|
        ensures leq(r[i], last)
      {
        assert r[i] in multiset(rest) + multiset{x};
      }
    }
  }

  lemma {:induction false} SortOrders<T(!new)>(leq: (T, T) -> bool, s: seq<T>)
    requires TotalPreorder(leq)
    ensures Ordered(leq, Sort(leq, s))
    decreases |s|
  {
    if s != [] {
      SortOrders(leq, s[..|s| - 1]);
      InsertOrders(leq, Sort(leq, s[..|s| - 1]), s[|s| - 1]);
    }
  }

  lemma {:induction false} SortKeeps<T>(leq: (T, T) -> bool, s: seq<T>)
    requires Ordered(leq, s)
    ensures Sort(leq, s) == s
    decreases |s|
  {
    hide Insert;
    if s != [] {
      var before, last := s[..|s| - 1], s[|s| - 1];
      SortKeeps(leq, before);
      InsertLast(leq, before, last);
      assert s == before + [last];
    }
  }

  lemma InsertLast<T>(leq: (T, T) -> bool, s: seq<T>, x: T)
    requires s == [] || leq(s[|s| - 1], x)
    ensures Insert(leq, s, x) == s + [x]
  {
  }

  /** A list equals its sort exactly when it is in order. */
  lemma SortedExactly<T(!new)>(leq: (T, T) -> bool, s: seq<T>)
    requires TotalPreorder(leq)
    ensures Sort(leq, s) == s <==> Ordered(leq, s)
  {
    SortOrders(leq, s);
    if Ordered(leq, s) {
      SortKeeps(leq, s);
    }
  }

  /** Without repetitions, keeping the first of equal elements. */
  function Unique<T(==,!new)>(s: seq<T>): (r: seq<T>)
    ensures forall x :: x in r <==> x in s
    ensures Distinct(r)
  {
    if s == [] then []
    else
      var before, last := Unique(s[..|s| - 1]), s[|s| - 1];
      assert s == s[..|s| - 1] + [last];
      if last in before then before else before + [last]
  }

  predicate Distinct<T(==)>(s: seq<T>) {
    forall i, j | 0 <= i < j < |s| :: s[i] != s[j]
  }
}
