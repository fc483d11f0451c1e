/** Depth-first listings of trie positions, and sweeps over subtrees, as values. */
module Enumeration {
  import opened Addressing
  import opened Octets
  import opened Sums

  /** The members of `s` below `k`, each node before its children, left before right. */
  ghost function PreOrder(s: set<Key>, k: Key, max: nat): (r: seq<Key>)
    requires Depth(k) <= max
    ensures forall x :: x in r ==> Depth(x) <= max
    decreases max - Depth(k)
  {
    (if k in s then [k] else []) +
    (if Depth(k) < max then PreOrder(s, Ext(k, false), max) + PreOrder(s, Ext(k, true), max) else [])
  }

  /** The members of `s` below `k`, children before their node. */
  ghost function PostOrder(s: set<Key>, k: Key, max: nat): (r: seq<Key>)
    requires Depth(k) <= max
    ensures forall x :: x in r ==> Depth(x) <= max
    decreases max - Depth(k)
  {
    (if Depth(k) < max then PostOrder(s, Ext(k, false), max) + PostOrder(s, Ext(k, true), max) else []) +
    (if k in s then [k] else [])
  }

  /** Listings of the first `n` root subtrees, in index order. */
  ghost function PreOrderRoots(f: Family, s: set<Key>, n: nat): (r: seq<Key>)
    requires n <= f.RootSize()
    ensures forall x :: x in r ==> Depth(x) <= f.MaxLen()
  {
    if n == 0 then [] else PreOrderRoots(f, s, n - 1) + PreOrder(s, Root(f.OctetOf(n - 1)), f.MaxLen())
  }

  ghost function PostOrderRoots(f: Family, s: set<Key>, n: nat): (r: seq<Key>)
    requires n <= f.RootSize()
    ensures forall x :: x in r ==> Depth(x) <= f.MaxLen()
  {
    if n == 0 then [] else PostOrderRoots(f, s, n - 1) + PostOrder(s, Root(f.OctetOf(n - 1)), f.MaxLen())
  }

  /** The prefixes reported for a listing. */
  function ToPrefixes(f: Family, l: seq<Key>): (r: seq<Prefix>)
    requires forall x :: x in l ==> Depth(x) <= f.MaxLen()
    ensures |r| == |l|
  {
    seq(|l|, i requires 0 <= i < |l| => assert l[i] in l; PrefixOf(f, l[i]))
  }

  lemma ToPrefixesConcat(f: Family, a: seq<Key>, b: seq<Key>)
    requires (forall x :: x in a ==> Depth(x) <= f.MaxLen()) && (forall x :: x in b ==> Depth(x) <= f.MaxLen())
    ensures ToPrefixes(f, a + b) == ToPrefixes(f, a) + ToPrefixes(f, b)
  {
  }

  // ---- Membership -------------------------------------------------------------------------------

  lemma {:induction false} PreOrderMembers(s: set<Key>, k: Key, max: nat, x: Key)
    requires Depth(k) <= max
    ensures x in PreOrder(s, k, max) <==> x in s && Under(k, x) && Depth(x) <= max
    decreases max - Depth(k)
  {
    UnderSplit(k, x);
    if Depth(k) < max {
      PreOrderMembers(s, Ext(k, false), max, x);
      PreOrderMembers(s, Ext(k, true), max, x);
    } else if Under(k, x) {
      UnderDepth(k, x);
    }
  }

  lemma {:induction false} PostOrderMembers(s: set<Key>, k: Key, max: nat, x: Key)
    requires Depth(k) <= max
    ensures x in PostOrder(s, k, max) <==> x in s && Under(k, x) && Depth(x) <= max
    decreases max - Depth(k)
  {
    UnderSplit(k, x);
    if Depth(k) < max {
      PostOrderMembers(s, Ext(k, false), max, x);
      PostOrderMembers(s, Ext(k, true), max, x);
    } else if Under(k, x) {
      UnderDepth(k, x);
    }
  }

  /** A listing only depends on the members below its top. */
  lemma {:induction false} PreOrderEmpty(s: set<Key>, k: Key, max: nat)
    requires Depth(k) <= max && forall x :: x in s ==> !Under(k, x)
    ensures PreOrder(s, k, max) == []
    decreases max - Depth(k)
  {
    if PreOrder(s, k, max) != [] {
      PreOrderMembers(s, k, max, PreOrder(s, k, max)[0]);
    }
  }

  lemma {:induction false} PostOrderSame(s: set<Key>, t: set<Key>, k: Key, max: nat)
    requires Depth(k) <= max && forall x :: Under(k, x) ==> (x in s <==> x in t)
    ensures PostOrder(s, k, max) == PostOrder(t, k, max)
    decreases max - Depth(k)
  {
    assert Under(k, k);
    if Depth(k) < max {
      forall x ensures Under(Ext(k, false), x) || Under(Ext(k, true), x) ==> Under(k, x) {
        UnderSplit(k, x);
      }
      PostOrderSame(s, t, Ext(k, false), max);
      PostOrderSame(s, t, Ext(k, true), max);
    }
  }

  lemma PostOrderEmpty(s: set<Key>, k: Key, max: nat)
    requires Depth(k) <= max && forall x :: x in s ==> !Under(k, x)
    ensures PostOrder(s, k, max) == []
  {
    if PostOrder(s, k, max) != [] {
      PostOrderMembers(s, k, max, PostOrder(s, k, max)[0]);
    }
  }

  lemma {:induction false} PreOrderRootsMembers(f: Family, s: set<Key>, n: nat, x: Key)
    requires n <= f.RootSize()
    ensures x in PreOrderRoots(f, s, n) <==>
      x in s && Depth(x) <= f.MaxLen() && f.Indexable(OctetOfKey(x)) && f.IndexOf(OctetOfKey(x)) < n
  {
    hide Family.OctetOf, Family.IndexOf, Family.Indexable, Family.Admits, IsValidV4;
    hide PreOrder, Under, Depth, OctetOfKey;
    if n > 0 {
      PreOrderRootsMembers(f, s, n - 1, x);
      var o := f.OctetOf(n - 1);
      RootDepth(f, o);
      PreOrderMembers(s, Root(o), f.MaxLen(), x);
      UnderRoot(o, x);
      SlotIff(f, n - 1, OctetOfKey(x));
    }
  }

  lemma {:induction false} PostOrderRootsMembers(f: Family, s: set<Key>, n: nat, x: Key)
    requires n <= f.RootSize()
    ensures x in PostOrderRoots(f, s, n) <==>
      x in s && Depth(x) <= f.MaxLen() && f.Indexable(OctetOfKey(x)) && f.IndexOf(OctetOfKey(x)) < n
  {
    hide Family.OctetOf, Family.IndexOf, Family.Indexable, Family.Admits, IsValidV4;
    hide PostOrder, Under, Depth, OctetOfKey;
    if n > 0 {
      PostOrderRootsMembers(f, s, n - 1, x);
      var o := f.OctetOf(n - 1);
      RootDepth(f, o);
      PostOrderMembers(s, Root(o), f.MaxLen(), x);
      UnderRoot(o, x);
      SlotIff(f, n - 1, OctetOfKey(x));
    }
  }

  // ---- Order --------------------------------------------------------------------------------------

  /** Strictly increasing by address, then length. */
  ghost predicate InOrder(f: Family, l: seq<Key>)
  {
    && (forall i :: 0 <= i < |l| ==> Depth(l[i]) <= f.MaxLen())
    && (forall i, j :: 0 <= i < j < |l| ==> Before(PrefixOf(f, l[i]), PrefixOf(f, l[j])))
  }

  lemma InOrderConcat(f: Family, a: seq<Key>, b: seq<Key>)
    requires InOrder(f, a) && InOrder(f, b)
    requires forall x, y :: x in a && y in b ==> Before(PrefixOf(f, x), PrefixOf(f, y))
    ensures InOrder(f, a + b)
  {
    hide Before;
    var l := a + b;
    forall i, j | 0 <= i < j < |l| ensures Before(PrefixOf(f, l[i]), PrefixOf(f, l[j])) {
      if i < |a| && |a| <= j { assert l[i] in a && l[j] in b; }
    }
  }

  lemma {:induction false} PreOrderInOrder(f: Family, s: set<Key>, k: Key)
    requires Depth(k) <= f.MaxLen()
    ensures InOrder(f, PreOrder(s, k, f.MaxLen()))
    decreases f.MaxLen() - Depth(k)
  {
    var max := f.MaxLen();
    if Depth(k) < max {
      var a, b := PreOrder(s, Ext(k, false), max), PreOrder(s, Ext(k, true), max);
      PreOrderInOrder(f, s, Ext(k, false));
      PreOrderInOrder(f, s, Ext(k, true));
      forall x, y | x in a && y in b ensures Before(PrefixOf(f, x), PrefixOf(f, y)) {
        PreOrderMembers(s, Ext(k, false), max, x);
        PreOrderMembers(s, Ext(k, true), max, y);
        SiblingsOrdered(f, k, x, y);
      }
      InOrderConcat(f, a, b);
      TopThenRest(f, s, k, a + b);
    }
  }

  lemma TopThenRest(f: Family, s: set<Key>, k: Key, l: seq<Key>)
    requires Depth(k) < f.MaxLen() && InOrder(f, l)
    requires l == PreOrder(s, Ext(k, false), f.MaxLen()) + PreOrder(s, Ext(k, true), f.MaxLen())
    ensures InOrder(f, [k] + l)
  {
    hide PreOrder, Before, Under;
    forall x, y | x in [k] && y in l ensures Before(PrefixOf(f, x), PrefixOf(f, y)) {
      PreOrderMembers(s, Ext(k, false), f.MaxLen(), y);
      PreOrderMembers(s, Ext(k, true), f.MaxLen(), y);
      UnderSplit(k, y);
      TopFirst(f, k, y);
    }
    InOrderConcat(f, [k], l);
  }

  /** The whole enumeration is strictly increasing, so it lists nothing twice. */
  lemma {:induction false} PreOrderRootsInOrder(f: Family, s: set<Key>, n: nat)
    requires n <= f.RootSize()
    ensures InOrder(f, PreOrderRoots(f, s, n))
  {
    if n > 0 {
      PreOrderRootsInOrder(f, s, n - 1);
      var o := f.OctetOf(n - 1);
      PreOrderInOrder(f, s, Root(o));
      var a, b := PreOrderRoots(f, s, n - 1), PreOrder(s, Root(o), f.MaxLen());
      forall x, y | x in a && y in b ensures Before(PrefixOf(f, x), PrefixOf(f, y)) {
        AcrossRoots(f, s, n, x, y);
      }
      hide Before, InOrder;
      InOrderConcat(f, a, b);
    }
  }

  lemma AcrossRoots(f: Family, s: set<Key>, n: nat, x: Key, y: Key)
    requires 0 < n <= f.RootSize()
    requires x in PreOrderRoots(f, s, n - 1) && y in PreOrder(s, Root(f.OctetOf(n - 1)), f.MaxLen())
    ensures Depth(x) <= f.MaxLen() && Depth(y) <= f.MaxLen()
    ensures Before(PrefixOf(f, x), PrefixOf(f, y))
  {
    AcrossOctets(f, s, n, x, y);
    hide PreOrder, PreOrderRoots, Before;
    RootsOrdered(f, x, y);
  }

  lemma AcrossOctets(f: Family, s: set<Key>, n: nat, x: Key, y: Key)
    requires 0 < n <= f.RootSize()
    requires x in PreOrderRoots(f, s, n - 1) && y in PreOrder(s, Root(f.OctetOf(n - 1)), f.MaxLen())
    ensures Depth(x) <= f.MaxLen() && Depth(y) <= f.MaxLen() && OctetOfKey(x) < OctetOfKey(y)
  {
    hide *;
    var o := f.OctetOf(n - 1);
    PreOrderRootsMembers(f, s, n - 1, x);
    RootDepth(f, o);
    PreOrderMembers(s, Root(o), f.MaxLen(), y);
    UnderRoot(o, y);
    SlotOctet(f, n - 1);
    IndexOrder(f, OctetOfKey(x), o);
  }

  lemma RootDepth(f: Family, o: bv8)
    ensures Depth(Root(o)) == 8 <= f.MaxLen()
  {
  }

  lemma IndexOrder(f: Family, a: bv8, b: bv8)
    requires f.Indexable(a) && f.Indexable(b) && f.IndexOf(a) < f.IndexOf(b)
    ensures a < b
  {
  }

  lemma BeforeIsIrreflexive(p: Prefix)
    ensures !Before(p, p)
  {
  }

  /** An enumeration in order lists every member once: its length is the number of members. */
  lemma {:induction false} InOrderCount(f: Family, l: seq<Key>, s: set<Key>)
    requires InOrder(f, l) && forall x :: x in l <==> x in s
    ensures |l| == |s|
  {
    if l == [] {
      assert s == {};
    } else {
      var n := |l| - 1;
      var front, x := l[..n], l[n];
      assert l == front + [x];
      forall i | 0 <= i < n ensures l[i] != x {
        BeforeIsIrreflexive(PrefixOf(f, x));
      }
      InOrderCount(f, front, s - {x});
    }
  }

  // ---- No position is listed twice ------------------------------------------------------------------

  lemma DistinctConcat<T>(a: seq<T>, b: seq<T>)
    requires Distinct(a) && Distinct(b) && forall x :: x in a ==> x !in b
    ensures Distinct(a + b)
  {
    var l := a + b;
    forall i, j | 0 <= i < j < |l| ensures l[i] != l[j] {
      if i < |a| && |a| <= j { assert l[i] in a && l[j] in b; }
    }
  }

  lemma {:induction false} PostOrderDistinct(s: set<Key>, k: Key, max: nat)
    requires Depth(k) <= max
    ensures Distinct(PostOrder(s, k, max))
    decreases max - Depth(k)
  {
    if Depth(k) < max {
      var a, b := PostOrder(s, Ext(k, false), max), PostOrder(s, Ext(k, true), max);
      PostOrderDistinct(s, Ext(k, false), max);
      PostOrderDistinct(s, Ext(k, true), max);
      forall x ensures x in a ==> x !in b && x != k {
        ChildrenApart(s, k, max, x);
      }
      forall x ensures x in b ==> x != k {
        ChildrenApart(s, k, max, x);
      }
      DistinctConcat(a, b);
      DistinctConcat(a + b, if k in s then [k] else []);
    }
  }

  lemma ChildrenApart(s: set<Key>, k: Key, max: nat, x: Key)
    requires Depth(k) < max
    ensures var a, b := PostOrder(s, Ext(k, false), max), PostOrder(s, Ext(k, true), max);
      (x in a ==> x !in b && x != k) && (x in b ==> x != k)
  {
    hide PostOrder, Under;
    PostOrderMembers(s, Ext(k, false), max, x);
    PostOrderMembers(s, Ext(k, true), max, x);
    UnderSplit(k, x);
  }

  lemma {:induction false} PostOrderRootsDistinct(f: Family, s: set<Key>, n: nat)
    requires n <= f.RootSize()
    ensures Distinct(PostOrderRoots(f, s, n))
  {
    if n > 0 {
      var a, b := PostOrderRoots(f, s, n - 1), PostOrder(s, Root(f.OctetOf(n - 1)), f.MaxLen());
      PostOrderRootsDistinct(f, s, n - 1);
      PostOrderDistinct(s, Root(f.OctetOf(n - 1)), f.MaxLen());
      forall x ensures x in a ==> x !in b {
        RootListsApart(f, s, n, x);
      }
      DistinctConcat(a, b);
    }
  }

  lemma RootListsApart(f: Family, s: set<Key>, n: nat, x: Key)
    requires 0 < n <= f.RootSize() && Depth(Root(f.OctetOf(n - 1))) <= f.MaxLen()
    ensures x in PostOrderRoots(f, s, n - 1) ==> x !in PostOrder(s, Root(f.OctetOf(n - 1)), f.MaxLen())
  {
    hide *;
    PostOrderRootsMembers(f, s, n - 1, x);
    PostOrderMembers(s, Root(f.OctetOf(n - 1)), f.MaxLen(), x);
    UnderRoot(f.OctetOf(n - 1), x);
    SlotIff(f, n - 1, OctetOfKey(x));
  }

  // ---- The order of a sweep ---------------------------------------------------------------------------

  /** What a sweep leaves first: nodes below before nodes above, otherwise by address. */
  ghost predicate Sooner(f: Family, x: Key, y: Key)
    requires Depth(x) <= f.MaxLen() && Depth(y) <= f.MaxLen()
  {
    (Under(y, x) && x != y) || (!Under(x, y) && !Under(y, x) && Before(PrefixOf(f, x), PrefixOf(f, y)))
  }

  ghost predicate InSweepOrder(f: Family, l: seq<Key>)
  {
    && (forall i :: 0 <= i < |l| ==> Depth(l[i]) <= f.MaxLen())
    && (forall i, j :: 0 <= i < j < |l| ==> Sooner(f, l[i], l[j]))
  }

  lemma SweepOrderConcat(f: Family, a: seq<Key>, b: seq<Key>)
    requires InSweepOrder(f, a) && InSweepOrder(f, b)
    requires forall x, y :: x in a && y in b ==> Sooner(f, x, y)
    ensures InSweepOrder(f, a + b)
  {
    hide Sooner;
    var l := a + b;
    forall i, j | 0 <= i < j < |l| ensures Sooner(f, l[i], l[j]) {
      if i < |a| && |a| <= j { assert l[i] in a && l[j] in b; }
    }
  }

  lemma {:induction false} UnderTrans(a: Key, b: Key, c: Key)
    requires Under(a, b) && Under(b, c)
    ensures Under(a, c)
  {
    if b != c { UnderTrans(a, b, c.up); }
  }

  /** Two nodes below different children of a node. */
  lemma AcrossSiblings(f: Family, k: Key, x: Key, y: Key)
    requires Under(Ext(k, false), x) && Under(Ext(k, true), y)
    requires Depth(x) <= f.MaxLen() && Depth(y) <= f.MaxLen()
    ensures Sooner(f, x, y)
  {
    SiblingsOrdered(f, k, x, y);
    UnderSplit(k, x);
    UnderSplit(k, y);
    if Under(x, y) { UnderTrans(Ext(k, false), x, y); }
    if Under(y, x) { UnderTrans(Ext(k, true), y, x); }
  }

  lemma {:induction false} PostOrderInSweepOrder(f: Family, s: set<Key>, k: Key)
    requires Depth(k) <= f.MaxLen()
    ensures InSweepOrder(f, PostOrder(s, k, f.MaxLen()))
    decreases f.MaxLen() - Depth(k)
  {
    var max := f.MaxLen();
    if Depth(k) < max {
      var a, b := PostOrder(s, Ext(k, false), max), PostOrder(s, Ext(k, true), max);
      PostOrderInSweepOrder(f, s, Ext(k, false));
      PostOrderInSweepOrder(f, s, Ext(k, true));
      forall x, y | x in a && y in b ensures Sooner(f, x, y) {
        PostOrderMembers(s, Ext(k, false), max, x);
        PostOrderMembers(s, Ext(k, true), max, y);
        AcrossSiblings(f, k, x, y);
      }
      SweepOrderConcat(f, a, b);
      RestThenTop(f, s, k, a + b);
    }
  }

  lemma RestThenTop(f: Family, s: set<Key>, k: Key, l: seq<Key>)
    requires Depth(k) < f.MaxLen() && InSweepOrder(f, l)
    requires l == PostOrder(s, Ext(k, false), f.MaxLen()) + PostOrder(s, Ext(k, true), f.MaxLen())
    ensures InSweepOrder(f, l + [k])
  {
    hide PostOrder, Before, Under;
    forall x, y | x in l && y in [k] ensures Sooner(f, x, y) {
      PostOrderMembers(s, Ext(k, false), f.MaxLen(), x);
      PostOrderMembers(s, Ext(k, true), f.MaxLen(), x);
      UnderSplit(k, x);
    }
    SweepOrderConcat(f, l, [k]);
  }

  lemma {:induction false} PostOrderRootsInSweepOrder(f: Family, s: set<Key>, n: nat)
    requires n <= f.RootSize()
    ensures InSweepOrder(f, PostOrderRoots(f, s, n))
  {
    if n > 0 {
      PostOrderRootsInSweepOrder(f, s, n - 1);
      var o := f.OctetOf(n - 1);
      PostOrderInSweepOrder(f, s, Root(o));
      var a, b := PostOrderRoots(f, s, n - 1), PostOrder(s, Root(o), f.MaxLen());
      forall x, y | x in a && y in b ensures Sooner(f, x, y) {
        AcrossSweptRoots(f, s, n, x, y);
      }
      hide Sooner, InSweepOrder;
      SweepOrderConcat(f, a, b);
    }
  }

  lemma AcrossSweptRoots(f: Family, s: set<Key>, n: nat, x: Key, y: Key)
    requires 0 < n <= f.RootSize()
    requires x in PostOrderRoots(f, s, n - 1) && y in PostOrder(s, Root(f.OctetOf(n - 1)), f.MaxLen())
    ensures Depth(x) <= f.MaxLen() && Depth(y) <= f.MaxLen() && Sooner(f, x, y)
  {
    AcrossSweptOctets(f, s, n, x, y);
    hide PostOrder, PostOrderRoots, Before;
    RootsOrdered(f, x, y);
    if Under(x, y) { UnderDepth(x, y); }
    if Under(y, x) { UnderDepth(y, x); }
  }

  lemma AcrossSweptOctets(f: Family, s: set<Key>, n: nat, x: Key, y: Key)
    requires 0 < n <= f.RootSize()
    requires x in PostOrderRoots(f, s, n - 1) && y in PostOrder(s, Root(f.OctetOf(n - 1)), f.MaxLen())
    ensures Depth(x) <= f.MaxLen() && Depth(y) <= f.MaxLen() && OctetOfKey(x) < OctetOfKey(y)
  {
    hide *;
    var o := f.OctetOf(n - 1);
    PostOrderRootsMembers(f, s, n - 1, x);
    RootDepth(f, o);
    PostOrderMembers(s, Root(o), f.MaxLen(), y);
    UnderRoot(o, y);
    SlotOctet(f, n - 1);
    IndexOrder(f, OctetOfKey(x), o);
  }
}
