/** The recursive walkers that list prefixes and matching routes. */
module Listings {
  import opened Addressing
  import opened AttrModel
  import opened AttrTables
  import opened Attributes
  import opened Enumeration
  import opened Nodes
  import opened PathSeq
  import opened Reference
  import opened RibModel
  import opened Ribs
  import opened Selection
  import opened Tries
  import opened Walks

  /** One node and its two subtrees, as the walkers visit them. */
  lemma PreOrderParts(f: Family, s: set<Key>, k: Key)
    requires Depth(k) <= f.MaxLen()
    ensures ToPrefixes(f, PreOrder(s, k, f.MaxLen())) ==
      (if k in s then [PrefixOf(f, k)] else []) +
      (if Depth(k) < f.MaxLen()
       then ToPrefixes(f, PreOrder(s, Ext(k, false), f.MaxLen())) + ToPrefixes(f, PreOrder(s, Ext(k, true), f.MaxLen()))
       else [])
  {
    var here := if k in s then [k] else [];
    assert ToPrefixes(f, here) == if k in s then [PrefixOf(f, k)] else [];
    if Depth(k) < f.MaxLen() {
      var l, r := PreOrder(s, Ext(k, false), f.MaxLen()), PreOrder(s, Ext(k, true), f.MaxLen());
      ToPrefixesConcat(f, l, r);
      ToPrefixesConcat(f, here, l + r);
    } else {
      assert PreOrder(s, k, f.MaxLen()) == here;
    }
  }

  /** A missing child means an empty listing. */
  lemma ChildListing(f: Family, root: array<Node?>, t: Trie, m: Content, n: Node, bit: bool)
    requires Linked(t) && Rooted(f, root, t) && Stored(t, m) && n.key in t && t[n.key] == n && Depth(n.key) < f.MaxLen()
    ensures var l, c := Ext(n.key, bit), n.Child(bit);
      && (c != null ==> c.key == l && l in t && t[l] == c)
      && (c == null ==> PreOrder(m.Keys, l, f.MaxLen()) == [])
  {
    hide PreOrder, Node.SlotsOK, Node.Paths;
    var l := Ext(n.key, bit);
    ChildOf(t, n, bit);
    if l !in t {
      AbsentBelow(t, m, l);
      PreOrderEmpty(m.Keys, l, f.MaxLen());
    }
  }

  /** `addr` is what the walker has rebuilt on its way to `n`. */
  method CollectPrefixes(n: Node, addr: seq<bv8>, depth: nat, results: seq<Prefix>, r: Rib) returns (all: seq<Prefix>)
    requires Linked(r.nodes) && Rooted(r.family, r.root, r.nodes) && Stored(r.nodes, r.content)
    requires n.key in r.nodes && r.nodes[n.key] == n
    requires depth == Depth(n.key) <= r.family.MaxLen() && |addr| == r.family.Octets() &&
        addr == AddrOf(n.key, r.family.Octets())
    ensures all == results + ToPrefixes(r.family, PreOrder(r.content.Keys, n.key, r.family.MaxLen()))
    decreases r.family.MaxLen() - depth
  {
    hide *;
    ghost var k := n.key;
    NodeHolds(r.nodes, r.content, k);
    PreOrderParts(r.family, r.content.Keys, k);
    PrefixAt(r.family, k);
    all := results;
    if n.hasPath {
      all := all + [Prefix(RawAddr.Addr(r.family, addr), depth)];
    }
    if depth >= r.family.MaxLen() {
      return;
    }
    all := CollectFromChild(n, false, addr, depth, all, r);
    all := CollectFromChild(n, true, addr, depth, all, r);
  }

  method CollectFromChild(n: Node, bit: bool, addr: seq<bv8>, depth: nat, results: seq<Prefix>,
      r: Rib) returns (all: seq<Prefix>)
    requires Linked(r.nodes) && Rooted(r.family, r.root, r.nodes) && Stored(r.nodes, r.content)
    requires n.key in r.nodes && r.nodes[n.key] == n
    requires depth == Depth(n.key) < r.family.MaxLen() && |addr| == r.family.Octets() &&
        addr == AddrOf(n.key, r.family.Octets())
    ensures Depth(Ext(n.key, bit)) <= r.family.MaxLen()
    ensures all == results + ToPrefixes(r.family, PreOrder(r.content.Keys, Ext(n.key, bit), r.family.MaxLen()))
    decreases r.family.MaxLen() - depth, 0
  {
    hide *;
    ExtDepth(n.key);
    NextIs(r.family, n.key, bit);
    ChildListing(r.family, r.root, r.nodes, r.content, n, bit);
    NothingToReport(r.family, results);
    all := results;
    var child := n.Child(bit);
    if child != null {
      all := CollectPrefixes(child, NextAddr(addr, depth, bit), depth + 1, all, r);
    }
  }

  /** All prefixes, scanning the array only as far as prefixes are ever admitted. */
  method AllPrefixes(r: Rib) returns (all: seq<Prefix>)
    requires r.Shape()
    ensures all == Reference.AllPrefixes(r.family, Contents(r.content))
  {
    hide *;
    r.ValidParts();
    SameKeys(r.content);
    ListedSoFar(r.family, r.content.Keys);
    all := [];
    for i := 0 to r.family.ScanLimit()
      invariant all == ToPrefixes(r.family, PreOrderRoots(r.family, r.content.Keys, i))
    {
      RootListing(r.family, r.root, r.nodes, r.content, i);
      NothingToReport(r.family, all);
      if r.root[i] != null {
        var addr := [r.family.OctetOf(i)] + seq(r.family.Octets() - 1, _ => 0);
        all := CollectPrefixes(r.root[i], addr, 8, all, r);
      }
    }
    EnumerationIs(r.family, Contents(r.content));
  }

  lemma SameKeys(m: Content)
    ensures Contents(m).Keys == m.Keys
  {
  }

  lemma ListedSoFar(f: Family, s: set<Key>)
    ensures f.ScanLimit() <= f.RootSize() && ToPrefixes(f, PreOrderRoots(f, s, 0)) == []
  {
  }

  lemma EnumerationIs(f: Family, m: Store)
    ensures Reference.AllPrefixes(f, m) == ToPrefixes(f, PreOrderRoots(f, m.Keys, f.ScanLimit()))
  {
  }

  /** The array entry of slot `i`, the address its walk starts from, and its part of the listing. */
  lemma RootListing(f: Family, root: array<Node?>, t: Trie, m: Content, i: nat)
    requires Linked(t) && Rooted(f, root, t) && Stored(t, m) && i < f.ScanLimit() <= f.RootSize()
    ensures var k := Root(f.OctetOf(i));
      && i < root.Length && Depth(k) == 8 <= f.MaxLen() && f.Octets() >= 1
      && AddrOf(k, f.Octets()) == [f.OctetOf(i)] + seq(f.Octets() - 1, _ => 0)
      && |[f.OctetOf(i)] + seq(f.Octets() - 1, _ => 0 as bv8)| == f.Octets()
      && (root[i] != null ==> root[i].key == k && k in t && t[k] == root[i])
      && (root[i] == null ==> PreOrder(m.Keys, k, f.MaxLen()) == [])
      && PreOrderRoots(f, m.Keys, i + 1) == PreOrderRoots(f, m.Keys, i) + PreOrder(m.Keys, k, f.MaxLen())
      && ToPrefixes(f, PreOrderRoots(f, m.Keys, i + 1)) ==
           ToPrefixes(f, PreOrderRoots(f, m.Keys, i)) + ToPrefixes(f, PreOrder(m.Keys, k, f.MaxLen()))
  {
    hide PreOrder, Node.SlotsOK, Node.Paths, Stored, Linked, Rooted, Family.OctetOf;
    var k := Root(f.OctetOf(i));
    RootBelow(f, root, t, m, i);
    RootEntryFacts(f, i, m);
    ToPrefixesConcat(f, PreOrderRoots(f, m.Keys, i), PreOrder(m.Keys, k, f.MaxLen()));
    if k !in t { PreOrderEmpty(m.Keys, k, f.MaxLen()); }
  }

  // ---- Queries over every path ----------------------------------------------------------------------------

  ghost predicate AllRendered(m: Content)
  {
    forall k, i :: k in m && 0 <= i < |m[k]| ==> Rendered(m[k][i].attrs)
  }

  /** Stored attributes come from the table, which caches the rendering of each entry. */
  lemma StoredAreRendered(at: AttrTable, m: Content, others: multiset<RouteAttributes>)
    requires at.Valid() && Counts(at.Model(), Occurrences(m) + others)
    ensures AllRendered(m)
  {
    hide Consistent, Occurrences, FormatASPath;
    forall k, i | k in m && 0 <= i < |m[k]| ensures Rendered(m[k][i].attrs) {
      StoredAttr(m, k, i);
      assert m[k][i].attrs in Occurrences(m) + others;
      assert m[k][i].attrs in at.Model().refs;
    }
  }

  type Results = seq<Route<RouteAttributes>>

  lemma OneMore(s: seq<PathEntry<AttrContent>>, i: nat, p: Prefix, q: Query)
    requires i < |s|
    ensures MatchingAt(p, s[..i + 1], q) == MatchingAt(p, s[..i], q) +
      (if q.Holds(s[i].attrs) then [Route(p, s[i].attrs, s[i].pathID, s[i].stale)] else [])
  {
    assert s[..i + 1][..i] == s[..i];
  }

  /** The paths of one node: the inline one, then the overflow. */
  method MatchNode(n: Node, p: Prefix, matcher: Matcher, results: Results) returns (all: Results)
    requires n.SlotsOK() && n.hasPath && matcher.Valid() && forall e :: e in n.Paths() ==> Rendered(e.attrs)
    modifies matcher
    ensures matcher.Valid()
    ensures MapRoutes(ContentOf, all) ==
      MapRoutes(ContentOf, results) + MatchingAt(p, MapAttrs(ContentOf, n.Paths()), matcher.query)
  {
    hide Rendered, Query.Holds, RouteAttributes.Content, UniqueIDs, MatchingAt;
    ghost var paths := n.Paths();
    ghost var s := MapAttrs(ContentOf, paths);
    ghost var q := matcher.query;
    NoneYet(s, p, q);
    all := results;
    var ok := matcher.Match(n.attrs);
    OneMore(s, 0, p, q);
    if ok {
      all := all + [Route(p, n.attrs, n.pathID, n.stale)];
    }
    for i := 0 to |n.extra|
      invariant matcher.Valid()
      invariant MapRoutes(ContentOf, all) == MapRoutes(ContentOf, results) + MatchingAt(p, s[..i + 1], q)
    {
      OneMore(s, i + 1, p, q);
      EntryView(paths, i + 1);
      ok := matcher.Match(n.extra[i].attrs);
      Appended(all, Route(p, n.extra[i].attrs, n.extra[i].pathID, n.extra[i].stale));
      if ok {
        all := all + [Route(p, n.extra[i].attrs, n.extra[i].pathID, n.extra[i].stale)];
      }
    }
    assert s[..|n.extra| + 1] == s;
  }

  lemma Appended(rs: Results, x: Route<RouteAttributes>)
    ensures MapRoutes(ContentOf, rs + [x]) == MapRoutes(ContentOf, rs) + [MapRoute(ContentOf, x)]
  {
  }

  lemma NoneYet(s: seq<PathEntry<AttrContent>>, p: Prefix, q: Query)
    ensures MatchingAt(p, s[..0], q) == []
  {
  }

  lemma MatchingLast(f: Family, m: Store, q: Query, l: seq<Key>)
    requires l != [] && forall x :: x in l ==> Depth(x) <= f.MaxLen()
    ensures var n := |l| - 1;
      && Depth(l[n]) <= f.MaxLen() && (forall x :: x in l[..n] ==> Depth(x) <= f.MaxLen())
      && Matching(f, m, q, l) == Matching(f, m, q, l[..n]) + MatchingAt(PrefixOf(f, l[n]), At(m, l[n]), q)
  {
    hide MatchingAt, PrefixOf;
    assert l[|l| - 1] in l;
  }

  lemma Slices<T>(a: seq<T>, b: seq<T>)
    ensures b == [] ==> a + b == a
    ensures b != [] ==>
      (a + b)[..|a + b| - 1] == a + b[..|b| - 1] && (a + b)[|a + b| - 1] == b[|b| - 1]
    ensures forall x :: x in a + b <==> x in a || x in b
  {
  }

  lemma {:induction false} MatchingConcat(f: Family, m: Store, q: Query, a: seq<Key>, b: seq<Key>)
    requires (forall x :: x in a ==> Depth(x) <= f.MaxLen()) && (forall x :: x in b ==> Depth(x) <= f.MaxLen())
    ensures forall x :: x in a + b ==> Depth(x) <= f.MaxLen()
    ensures Matching(f, m, q, a + b) == Matching(f, m, q, a) + Matching(f, m, q, b)
  {
    Slices(a, b);
    NoMatches(f, m, q, Matching(f, m, q, a));
    hide *;
    if b != [] {
      var n := |b| - 1;
      MatchingLast(f, m, q, b);
      MatchingLast(f, m, q, a + b);
      MatchingConcat(f, m, q, a, b[..n]);
      Assoc(Matching(f, m, q, a), Matching(f, m, q, b[..n]), MatchingAt(PrefixOf(f, b[n]), At(m, b[n]), q));
    }
  }

  /** The answer for one subtree in its parts. */
  lemma MatchingParts(f: Family, m: Content, q: Query, k: Key)
    requires Depth(k) <= f.MaxLen()
    ensures Matching(f, Contents(m), q, PreOrder(m.Keys, k, f.MaxLen())) ==
      MatchingAt(PrefixOf(f, k), MapAttrs(ContentOf, At(m, k)), q) +
      (if Depth(k) < f.MaxLen()
       then Matching(f, Contents(m), q, PreOrder(m.Keys, Ext(k, false), f.MaxLen())) +
            Matching(f, Contents(m), q, PreOrder(m.Keys, Ext(k, true), f.MaxLen()))
       else [])
    ensures Depth(k) == f.MaxLen() ==>
      Matching(f, Contents(m), q, PreOrder(m.Keys, k, f.MaxLen())) == MatchingAt(PrefixOf(f, k), MapAttrs(ContentOf,
          At(m, k)), q)
  {
    var v := Contents(m);
    var here := if k in m then [k] else [];
    MatchingHere(f, m, q, k);
    hide MatchingAt, Matching;
    if Depth(k) < f.MaxLen() {
      var l, r := PreOrder(m.Keys, Ext(k, false), f.MaxLen()), PreOrder(m.Keys, Ext(k, true), f.MaxLen());
      MatchingConcat(f, v, q, l, r);
      MatchingConcat(f, v, q, here, l + r);
    } else {
      assert PreOrder(m.Keys, k, f.MaxLen()) == here;
    }
  }

  lemma MatchingHere(f: Family, m: Content, q: Query, k: Key)
    requires Depth(k) <= f.MaxLen()
    ensures Matching(f, Contents(m), q, if k in m then [k] else []) ==
      MatchingAt(PrefixOf(f, k), MapAttrs(ContentOf, At(m, k)), q)
  {
    var v := Contents(m);
    assert At(v, k) == MapAttrs(ContentOf, At(m, k));
    if k in m {
      assert [k][..0] == [];
    } else {
      assert MapAttrs(ContentOf, At(m, k)) == [];
    }
  }

  lemma NoMatches(f: Family, m: Store, q: Query, s: seq<Announcement>)
    ensures s + Matching(f, m, q, []) == s
  {
  }

  method CollectMatching(n: Node, matcher: Matcher, addr: seq<bv8>, depth: nat, results: Results, r: Rib)
      returns (all: Results)
    requires Linked(r.nodes) && Rooted(r.family, r.root, r.nodes) && Stored(r.nodes, r.content)
    requires n.key in r.nodes && r.nodes[n.key] == n && AllRendered(r.content) && matcher.Valid()
    requires depth == Depth(n.key) <= r.family.MaxLen() && |addr| == r.family.Octets() &&
        addr == AddrOf(n.key, r.family.Octets())
    modifies matcher
    ensures matcher.Valid()
    ensures MapRoutes(ContentOf, all) == MapRoutes(ContentOf, results) +
      Matching(r.family, Contents(r.content), matcher.query, PreOrder(r.content.Keys, n.key, r.family.MaxLen()))
    decreases r.family.MaxLen() - depth
  {
    hide *;
    ghost var k := n.key;
    NodeHolds(r.nodes, r.content, k);
    MatchingParts(r.family, r.content, matcher.query, k);
    PrefixAt(r.family, k);
    NodeRendered(r.content, k);
    NoneHere(results, PrefixOf(r.family, k), r.content, k, matcher.query);
    all := results;
    if n.hasPath {
      all := MatchNode(n, Prefix(RawAddr.Addr(r.family, addr), depth), matcher, all);
    }
    if depth >= r.family.MaxLen() {
      return;
    }
    all := MatchFromChild(n, false, matcher, addr, depth, all, r);
    all := MatchFromChild(n, true, matcher, addr, depth, all, r);
  }

  lemma NodeRendered(m: Content, k: Key)
    requires AllRendered(m)
    ensures forall e :: e in At(m, k) ==> Rendered(e.attrs)
  {
  }

  lemma NoneHere(results: Results, p: Prefix, m: Content, k: Key, q: Query)
    ensures k !in m ==>
      MapRoutes(ContentOf, results) + MatchingAt(p, MapAttrs(ContentOf, At(m, k)), q) == MapRoutes(ContentOf, results)
  {
  }

  method MatchFromChild(n: Node, bit: bool, matcher: Matcher, addr: seq<bv8>, depth: nat, results: Results, r: Rib)
      returns (all: Results)
    requires Linked(r.nodes) && Rooted(r.family, r.root, r.nodes) && Stored(r.nodes, r.content)
    requires n.key in r.nodes && r.nodes[n.key] == n && AllRendered(r.content) && matcher.Valid()
    requires depth == Depth(n.key) < r.family.MaxLen() && |addr| == r.family.Octets() &&
        addr == AddrOf(n.key, r.family.Octets())
    modifies matcher
    ensures matcher.Valid() && Depth(Ext(n.key, bit)) <= r.family.MaxLen()
    ensures MapRoutes(ContentOf, all) == MapRoutes(ContentOf, results) +
      Matching(r.family, Contents(r.content), matcher.query, PreOrder(r.content.Keys, Ext(n.key, bit),
          r.family.MaxLen()))
    decreases r.family.MaxLen() - depth, 0
  {
    hide *;
    ExtDepth(n.key);
    NextIs(r.family, n.key, bit);
    ChildListing(r.family, r.root, r.nodes, r.content, n, bit);
    NoMatches(r.family, Contents(r.content), matcher.query, MapRoutes(ContentOf, results));
    all := results;
    var child := n.Child(bit);
    if child != null {
      all := CollectMatching(child, matcher, NextAddr(addr, depth, bit), depth + 1, all, r);
    }
  }

  /** Origin, community, large-community and AS-path queries: every one equals the naive filter of all
      paths of all prefixes, in enumeration order. `others` are the table's references from elsewhere. */
  method PrefixesMatching(r: Rib, q: Query, ghost others: multiset<RouteAttributes>) returns (all: Results)
    requires r.Shape() && r.attrTable.Valid() && Counts(r.attrTable.Model(), Occurrences(r.content) + others)
    ensures MapRoutes(ContentOf, all) == Reference.MatchingAll(r.family, Contents(r.content), q)
  {
    hide *;
    r.ValidParts();
    StoredAreRendered(r.attrTable, r.content, others);
    SameKeys(r.content);
    ListedSoFar(r.family, r.content.Keys);
    NoneMatched(r.family, Contents(r.content), q);
    var matcher := new Matcher(q);
    all := [];
    for i := 0 to r.family.ScanLimit()
      invariant matcher.Valid()
      invariant MapRoutes(ContentOf, all) == Matching(r.family, Contents(r.content), q, PreOrderRoots(r.family,
          r.content.Keys, i))
    {
      RootListing(r.family, r.root, r.nodes, r.content, i);
      ghost var k := Root(r.family.OctetOf(i));
      MatchingConcat(r.family, Contents(r.content), q, PreOrderRoots(r.family, r.content.Keys, i),
          PreOrder(r.content.Keys, k, r.family.MaxLen()));
      NoMatches(r.family, Contents(r.content), q, MapRoutes(ContentOf, all));
      if r.root[i] != null {
        var addr := [r.family.OctetOf(i)] + seq(r.family.Octets() - 1, _ => 0);
        all := CollectMatching(r.root[i], matcher, addr, 8, all, r);
      }
    }
    MatchingAllIs(r.family, Contents(r.content), q);
  }

  lemma NoneMatched(f: Family, m: Store, q: Query)
    ensures MapRoutes(ContentOf, []) == Matching(f, m, q, PreOrderRoots(f, m.Keys, 0))
  {
  }

  lemma MatchingAllIs(f: Family, m: Store, q: Query)
    ensures Reference.MatchingAll(f, m, q) == Matching(f, m, q, PreOrderRoots(f, m.Keys, f.ScanLimit()))
  {
  }
}
