/** Sums over a finite index set, and sequences without repetition. */
module Sums {

  ghost predicate Distinct<T>(l: seq<T>)
  {
    forall i, j :: 0 <= i < j < |l| ==> l[i] != l[j]
  }

  ghost function SumOver<K, P>(s: set<K>, f: K -> multiset<P>): multiset<P>
  {
    if s == {} then multiset{} else var k :| k in s; f(k) + SumOver(s - {k}, f)
  }

  /** The order in which the index set is consumed does not matter. */
  lemma {:induction false} Peel<K, P>(s: set<K>, f: K -> multiset<P>, k: K)
    requires k in s
    ensures SumOver(s, f) == f(k) + SumOver(s - {k}, f)
    decreases |s|
  {
    var l :| l in s && SumOver(s, f) == f(l) + SumOver(s - {l}, f);
    if l != k {
      Peel(s - {l}, f, k);
      Peel(s - {k}, f, l);
      assert s - {l} - {k} == s - {k} - {l};
    }
  }

  lemma {:induction false} SameTerms<K, P>(s: set<K>, f: K -> multiset<P>, g: K -> multiset<P>)
    requires forall k :: k in s ==> f(k) == g(k)
    ensures SumOver(s, f) == SumOver(s, g)
    decreases |s|
  {
    if s != {} {
      var k :| k in s;
      Peel(s, f, k);
      Peel(s, g, k);
      SameTerms(s - {k}, f, g);
    }
  }

  /** Changing the term at one index changes the sum by the difference. */
  lemma ChangeTerm<K, P>(s: set<K>, f: K -> multiset<P>, g: K -> multiset<P>, k: K)
    requires k in s && forall l :: l in s && l != k ==> f(l) == g(l)
    ensures SumOver(s, f) + g(k) == SumOver(s, g) + f(k)
  {
    Peel(s, f, k);
    Peel(s, g, k);
    SameTerms(s - {k}, f, g);
  }

  lemma {:induction false} TermBelowSum<K, P>(s: set<K>, f: K -> multiset<P>, k: K)
    requires k in s
    ensures f(k) <= SumOver(s, f)
  {
    Peel(s, f, k);
  }

  lemma {:induction false} EmptyTerms<K, P>(s: set<K>, f: K -> multiset<P>)
    requires forall k :: k in s ==> f(k) == multiset{}
    ensures SumOver(s, f) == multiset{}
    decreases |s|
  {
    if s != {} {
      var k :| k in s;
      Peel(s, f, k);
      EmptyTerms(s - {k}, f);
    }
  }

  /** Progress of a loop that consumes a set in some order. */
  lemma Remainder<K>(all: set<K>, done: set<K>, k: K)
    requires k in all && k !in done
    ensures |all - (done + {k})| < |all - done|
  {
    assert all - done == (all - (done + {k})) + {k};
  }

  lemma Associative<P>(a: multiset<P>, b: multiset<P>, c: multiset<P>)
    ensures a + (b + c) == a + b + c
  {
  }

  lemma {:induction false} SumUnion<K, P>(a: set<K>, b: set<K>, f: K -> multiset<P>)
    requires a !! b
    ensures SumOver(a + b, f) == SumOver(a, f) + SumOver(b, f)
    decreases |a|
  {
    if a == {} {
      assert a + b == b;
    } else {
      var k :| k in a;
      Peel(a, f, k);
      Peel(a + b, f, k);
      assert a + b - {k} == (a - {k}) + b;
      SumUnion(a - {k}, b, f);
      hide SumOver;
      Associative(f(k), SumOver(a - {k}, f), SumOver(b, f));
    }
  }

  lemma Extensional<P>(a: multiset<P>, b: multiset<P>)
    requires forall p: P :: a[p] == b[p]
    ensures a == b
  {
  }

  /** If x - y == s - t and s - t == d - e, then x - y == d - e. */
  lemma Chain<P>(x: multiset<P>, y: multiset<P>, s: multiset<P>, t: multiset<P>, d: multiset<P>, e: multiset<P>)
    requires x + t == y + s && s + e == t + d
    ensures x + e == y + d
  {
    forall p: P ensures (x + e)[p] == (y + d)[p] {
      assert (x + t)[p] == (y + s)[p] && (s + e)[p] == (t + d)[p];
    }
  }

  ghost function SumInt<K>(s: set<K>, f: K -> int): int
  {
    if s == {} then 0 else var k :| k in s; f(k) + SumInt(s - {k}, f)
  }

  lemma {:induction false} PeelInt<K>(s: set<K>, f: K -> int, k: K)
    requires k in s
    ensures SumInt(s, f) == f(k) + SumInt(s - {k}, f)
    decreases |s|
  {
    var l :| l in s && SumInt(s, f) == f(l) + SumInt(s - {l}, f);
    if l != k {
      PeelInt(s - {l}, f, k);
      PeelInt(s - {k}, f, l);
      assert s - {l} - {k} == s - {k} - {l};
    }
  }

  lemma {:induction false} SameTermsInt<K>(s: set<K>, f: K -> int, g: K -> int)
    requires forall k :: k in s ==> f(k) == g(k)
    ensures SumInt(s, f) == SumInt(s, g)
    decreases |s|
  {
    if s != {} {
      var k :| k in s;
      PeelInt(s, f, k);
      PeelInt(s, g, k);
      SameTermsInt(s - {k}, f, g);
    }
  }
}
