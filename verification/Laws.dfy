/** The operations of a RIB in their callers' terms: what each one stores, removes and answers, stated
    about prefixes and routes and without the definitions it is computed by. */
module Laws {
  import opened Addressing
  import opened Attributes
  import opened Enumeration
  import opened Octets
  import opened PathSeq
  import opened Reference
  import opened RibModel
  import opened Selection
  import opened Sums
  import opened Sweeps
  import opened Walks

  // ---- Which prefixes count -----------------------------------------------------------------------------

  /** The prefixes a RIB stores, in numbers. */
  lemma StoresExactly(f: Family, r: Announcement)
    ensures var o, n, g := r.prefix.addr.bytes[0], r.prefix.bits, r.prefix.addr.family;
      InsertRoute(f, map[], r) != map[] <==>
        if f == V4 then g == V4 && 8 <= n <= 24 && (1 <= o <= 9 || 11 <= o <= 126 || 128 <= o <= 223)
        else g == V6 && 8 <= n <= 48 && 0x20 <= o <= 0x3F
  {
    IsValidV4Meaning(r.prefix.addr.bytes[0]);
    hide IsValidV4, KeyOf;
    AcceptedIsStored(f, r);
  }

  lemma AcceptedIsStored(f: Family, r: Announcement)
    ensures Accepts(f, r.prefix) ==> KeyOfPrefix(r.prefix) in InsertRoute(f, map[], r)
  {
  }

  /** What is not stored changes nothing, whatever is there already. */
  lemma OthersIgnored(f: Family, m: Store, r: Announcement)
    requires InsertRoute(f, map[], r) == map[]
    ensures InsertRoute(f, m, r) == m
  {
    AcceptedIsStored(f, r);
  }

  /** The first octets the root array has an entry for, in numbers. */
  lemma IndexedExactly(f: Family, octet: bv8)
    ensures f.Indexable(octet) <==> f == V4 || 0x20 <= octet <= 0x3F
    ensures f.Indexable(octet) ==> f.IndexOf(octet) == if f == V4 then octet as int else octet as int - 32
    ensures f.RootSize() == if f == V4 then 256 else 32
  {
  }

  /** The lengths lookups and withdrawals look at, in numbers. */
  lemma ConcernsExactly(f: Family, p: Prefix)
    ensures Concerns(f, p) <==> p.addr.family == f && 8 <= p.bits <= if f == V4 then 24 else 48
  {
  }

  // ---- Exact queries ------------------------------------------------------------------------------------

  /** All paths of a prefix: one route per stored path, in stored order, under the masked prefix; none
      for a prefix that is not stored. */
  lemma AllPathsExact(f: Family, m: Store, p: Prefix)
    requires WellFormed(m)
    ensures AllPaths(f, m, p) != [] <==> Concerns(f, p) && StoredPrefix(f, m, MaskedPrefix(p))
    ensures Concerns(f, p) ==>
      var rs, s := AllPaths(f, m, p), At(m, KeyOfPrefix(p));
      && |rs| == |s|
      && forall i :: 0 <= i < |s| ==>
           rs[i].prefix == MaskedPrefix(p) && PathEntry(rs[i].attributes, rs[i].pathID, rs[i].stale) == s[i]
  {
    if Concerns(f, p) { MaskedTwice(p.addr.bytes, p.bits); }
    hide KeyOf, Masked;
  }

  /** The exact lookup finds a prefix exactly when it is stored, whatever else contains its address, and
      answers with its best path. */
  lemma LookupExact(f: Family, m: Store, p: Prefix)
    requires WellFormed(m)
    ensures Lookup(f, m, p).Some? <==> Concerns(f, p) && StoredPrefix(f, m, MaskedPrefix(p))
    ensures Lookup(f, m, p).Some? ==>
      var r := Lookup(f, m, p).value;
      r.prefix == MaskedPrefix(p) && KeyOfPrefix(p) in m && Optimum(m[KeyOfPrefix(p)], r)
  {
    if Concerns(f, p) {
      MaskedTwice(p.addr.bytes, p.bits);
      if KeyOfPrefix(p) in m { BestRouteIsOptimum(m, KeyOfPrefix(p), p); }
    }
    hide KeyOf, Masked, Optimum, Best;
  }

  /** Every route of a prefix against the one a lookup chose: not preferred, and if equally preferred not
      shorter, and if equally short not of lower ID. */
  lemma LookupCriteria(f: Family, m: Store, p: Prefix, q: Announcement)
    requires WellFormed(m) && q in AllPaths(f, m, p)
    ensures Lookup(f, m, p).Some? && Lookup(f, m, p).value in AllPaths(f, m, p)
    ensures NoBetter(q, Lookup(f, m, p).value)
  {
    AllPathsExact(f, m, p);
    var s := At(m, KeyOfPrefix(p));
    var i :| 0 <= i < |s| && AllPaths(f, m, p)[i] == q;
    hide KeyOf, Masked;
    assert s[i] in s;
    BestCriteria(s, s[i]);
    assert AllPaths(f, m, p)[Best(s)] == Lookup(f, m, p).value;
  }

  ghost predicate NoBetter(q: Announcement, r: Announcement)
  {
    var lq := if q.attributes.localPref == 0 then 100 else q.attributes.localPref;
    var lr := if r.attributes.localPref == 0 then 100 else r.attributes.localPref;
    && lq <= lr
    && (lq == lr ==> |r.attributes.asPath| <= |q.attributes.asPath|)
    && (lq == lr && |r.attributes.asPath| == |q.attributes.asPath| ==> r.pathID <= q.pathID)
  }

  // ---- Longest match ------------------------------------------------------------------------------------

  /** The search for all paths answers with every path of the prefix the search names, and of no other. */
  lemma AllPathsSearchExact(f: Family, m: Store, ip: Addr)
    requires WellFormed(m)
    ensures Search(f, m, ip).None? ==> AllPathsSearch(f, m, ip) == []
    ensures Search(f, m, ip).Some? ==>
      var p := Search(f, m, ip).value.prefix;
      && Concerns(f, p) && KeyOfPrefix(p) in m
      && var rs, s := AllPathsSearch(f, m, ip), m[KeyOfPrefix(p)];
         && |rs| == |s|
         && forall i :: 0 <= i < |s| ==>
              rs[i].prefix == p && PathEntry(rs[i].attributes, rs[i].pathID, rs[i].stale) == s[i]
  {
    if ip.family == f {
      var len := MatchLen(m, ip.bytes, f.MaxLen());
      if len != 0 { MaskedTwice(ip.bytes, len); }
    }
    hide KeyOf, Masked, Best;
  }

  /** The search answers with the best of the routes the search for all paths lists. */
  lemma SearchCriteria(f: Family, m: Store, ip: Addr, q: Announcement)
    requires WellFormed(m) && q in AllPathsSearch(f, m, ip)
    ensures Search(f, m, ip).Some? && Search(f, m, ip).value in AllPathsSearch(f, m, ip)
    ensures NoBetter(q, Search(f, m, ip).value)
  {
    var len := MatchLen(m, ip.bytes, f.MaxLen());
    var s := m[KeyOf(ip.bytes, len)];
    var i :| 0 <= i < |s| && AllPathsSearch(f, m, ip)[i] == q;
    hide KeyOf, Masked;
    assert s[i] in s;
    BestCriteria(s, s[i]);
    assert AllPathsSearch(f, m, ip)[Best(s)] == Search(f, m, ip).value;
  }

  // ---- Announcements and withdrawals --------------------------------------------------------------------

  /** What an announcement does at its own prefix, and that it does nothing elsewhere. The route stored is
      the caller's, never stale; it takes the place of the path with its ID, else of the first stale path,
      else it goes to the end. */
  lemma AnnounceExact(f: Family, m: Store, r: Announcement, a: seq<PathEntry<AttrContent>>,
                      e: PathEntry<AttrContent>, b: seq<PathEntry<AttrContent>>)
    requires Accepts(f, r.prefix)
    ensures var k, e' := KeyOfPrefix(r.prefix), PathEntry(r.attributes, r.pathID, false);
      var after := InsertRoute(f, m, r);
      && (forall x :: x != k ==> At(after, x) == At(m, x))
      && (At(m, k) == a + [e] + b && Lacks(a, r.pathID) && e.pathID == r.pathID ==> At(after, k) == a + [e'] + b)
      && (At(m, k) == a + [e] + b && Lacks(a + [e] + b, r.pathID) && e.stale && NoneStale(a) ==>
            At(after, k) == a + [e'] + b)
      && (At(m, k) == a && Lacks(a, r.pathID) && NoneStale(a) ==> At(after, k) == a + [e'])
  {
    SetPathExact(a, e, b, r.pathID, r.attributes, false);
    hide KeyOf, SetPath, IndexOf, FirstStale;
  }

  predicate NoneStale(s: seq<PathEntry<AttrContent>>)
  {
    forall i :: 0 <= i < |s| ==> !s[i].stale
  }

  /** What a withdrawal does at its own prefix, and that it does nothing elsewhere: the path with its ID
      goes, stale or not, and the others stay in order. */
  lemma WithdrawExact(f: Family, m: Store, w: Withdrawal, a: seq<PathEntry<AttrContent>>,
                      e: PathEntry<AttrContent>, b: seq<PathEntry<AttrContent>>)
    requires Concerns(f, w.prefix) && At(m, KeyOfPrefix(w.prefix)) == a + [e] + b
    requires Lacks(a, w.pathID) && e.pathID == w.pathID
    ensures var k, after := KeyOfPrefix(w.prefix), DeleteRoute(f, m, w);
      At(after, k) == a + b && forall x :: x != k ==> At(after, x) == At(m, x)
  {
    DeletePathExact(a, e, b);
    hide KeyOf, DeletePath, IndexOf;
  }

  /** A withdrawal of a path that is not there changes nothing. */
  lemma UnknownIgnored(f: Family, m: Store, w: Withdrawal)
    requires WellFormed(m)
    requires Concerns(f, w.prefix) ==> Lacks(At(m, KeyOfPrefix(w.prefix)), w.pathID)
    ensures DeleteRoute(f, m, w) == m
  {
    hide KeyOf;
  }

  /** After a withdrawal callers see every route they saw before except the one it names. */
  lemma WithdrawnIsGone(f: Family, m: Store, w: Withdrawal, p: Prefix, r: Announcement)
    requires WellFormed(m)
    ensures r in AllPaths(f, DeleteRoute(f, m, w), p) <==>
      r in AllPaths(f, m, p) &&
      !(Concerns(f, w.prefix) && r.prefix == MaskedPrefix(w.prefix) && r.pathID == w.pathID)
  {
    if Concerns(f, p) {
      SameNode(f, p, w.prefix);
      InAllPaths(f, m, p, r);
      InAllPaths(f, DeleteRoute(f, m, w), p, r);
      DeletePathMembers(At(m, KeyOfPrefix(p)), w.pathID, PathEntry(r.attributes, r.pathID, r.stale));
      hide KeyOf, Masked, AllPaths, DeletePath;
    }
  }

  /** After an announcement callers see the announced route, every other route that is not stale, and
      nothing else that is new. */
  lemma AnnouncedIsThere(f: Family, m: Store, a: Announcement, p: Prefix, r: Announcement)
    requires WellFormed(m) && Accepts(f, a.prefix)
    ensures var stored, after := Route(MaskedPrefix(a.prefix), a.attributes, a.pathID, false), InsertRoute(f, m, a);
      && stored in AllPaths(f, after, a.prefix)
      && (r in AllPaths(f, after, p) ==> r == stored || r in AllPaths(f, m, p))
      && (r in AllPaths(f, after, p) && r.prefix == stored.prefix && r.pathID == a.pathID ==> r == stored)
      && (r in AllPaths(f, m, p) && !r.stale && !(r.prefix == stored.prefix && r.pathID == a.pathID) ==>
            r in AllPaths(f, after, p))
  {
    var after, own := InsertRoute(f, m, a), PathEntry(a.attributes, a.pathID, false);
    var s := At(m, KeyOfPrefix(a.prefix));
    SetPathMembers(s, a.pathID, a.attributes, own);
    SetPathMembers(s, a.pathID, a.attributes, PathEntry(r.attributes, r.pathID, r.stale));
    InAllPaths(f, after, a.prefix, Route(MaskedPrefix(a.prefix), a.attributes, a.pathID, false));
    MaskedTwice(a.prefix.addr.bytes, a.prefix.bits);
    if Concerns(f, p) {
      SameNode(f, p, a.prefix);
      InAllPaths(f, m, p, r);
      InAllPaths(f, after, p, r);
    }
    hide KeyOf, Masked, AllPaths, SetPath, Family.Admits;
  }

  /** The attributes stored for a caller's route are the caller's, field by field; a route without any is
      stored with empty lists and no preference. */
  lemma CallersRouteIsThere(f: Family, m: Store, r: Route<RouteAttributes?>)
    requires WellFormed(m) && Accepts(f, r.prefix)
    ensures var c := if r.attributes == null then AttrContent([], [], [], 0)
        else AttrContent(r.attributes.asPath, r.attributes.communities, r.attributes.largeCommunities,
                         r.attributes.localPref);
      var stored := Route(MaskedPrefix(r.prefix), c, r.pathID, false);
      stored in AllPaths(f, InsertRoute(f, m, Announced(r)), r.prefix)
  {
    hide AllPaths, InsertRoute, Masked;
    var a := Announced(r);
    AnnouncedIsThere(f, m, a, r.prefix, a);
  }

  lemma SetPathMembers(s: seq<PathEntry<AttrContent>>, id: uint32, attrs: AttrContent, x: PathEntry<AttrContent>)
    requires UniqueIDs(s)
    ensures var t := SetPath(s, id, attrs, false);
      && PathEntry(attrs, id, false) in t
      && (x in t ==> x == PathEntry(attrs, id, false) || x in s)
      && (x in t && x.pathID == id ==> x == PathEntry(attrs, id, false))
      && (x in s && !x.stale && x.pathID != id ==> x in t)
  {
    var t, i := SetPath(s, id, attrs, false), SlotFor(s, id);
    SetKeepsIDsUnique(s, id, attrs, false);
    assert t[i] == PathEntry(attrs, id, false);
    if x in s && !x.stale && x.pathID != id {
      var j :| 0 <= j < |s| && s[j] == x;
      assert t[j] == x;
    }
  }

  lemma SameNode(f: Family, p: Prefix, q: Prefix)
    requires Concerns(f, p)
    ensures Concerns(f, q) ==> (KeyOfPrefix(p) == KeyOfPrefix(q) <==> MaskedPrefix(p) == MaskedPrefix(q))
  {
    if Concerns(f, q) && p.bits == q.bits { SameKey(p.addr.bytes, q.addr.bytes, p.bits); }
  }

  lemma InAllPaths(f: Family, m: Store, p: Prefix, r: Announcement)
    requires Concerns(f, p)
    ensures r in AllPaths(f, m, p) <==>
      r.prefix == MaskedPrefix(p) && PathEntry(r.attributes, r.pathID, r.stale) in At(m, KeyOfPrefix(p))
  {
    hide KeyOf, Masked;
    var s, rs := At(m, KeyOfPrefix(p)), AllPaths(f, m, p);
    if r.prefix == MaskedPrefix(p) && PathEntry(r.attributes, r.pathID, r.stale) in s {
      var i :| 0 <= i < |s| && s[i] == PathEntry(r.attributes, r.pathID, r.stale);
      assert rs[i] == r;
    }
  }

  // ---- Graceful restart ---------------------------------------------------------------------------------

  /** Marking shows every route as before, in the same order, except that it is stale. */
  lemma MarkedExactly(f: Family, m: Store, p: Prefix)
    ensures var rs, after := AllPaths(f, m, p), AllPaths(f, MarkAllStale(m), p);
      |after| == |rs| && forall i :: 0 <= i < |rs| ==> after[i] == rs[i].(stale := true)
  {
    hide KeyOf, Masked;
    assert Concerns(f, p) ==>
      At(MarkAllStale(m), KeyOfPrefix(p)) == MarkStale(At(m, KeyOfPrefix(p)));
  }

  /** The flush leaves the routes that are not stale, in the same order, and no others. */
  lemma {:induction false} FlushedExactly(f: Family, m: Store, p: Prefix)
    ensures AllPaths(f, DropStale(m), p) == NotStale(AllPaths(f, m, p))
  {
    if Concerns(f, p) {
      FreshRoutes(MaskedPrefix(p), At(m, KeyOfPrefix(p)));
      hide KeyOf, Masked, Fresh;
      assert At(DropStale(m), KeyOfPrefix(p)) == Fresh(At(m, KeyOfPrefix(p))) by { FreshOfNone<AttrContent>(); }
    }
  }

  function NotStale(rs: seq<Announcement>): seq<Announcement>
  {
    if rs == [] then []
    else NotStale(rs[..|rs| - 1]) + if rs[|rs| - 1].stale then [] else [rs[|rs| - 1]]
  }

  lemma {:induction false} FreshRoutes(p: Prefix, s: seq<PathEntry<AttrContent>>)
    ensures ToRoutes(p, Fresh(s)) == NotStale(ToRoutes(p, s))
  {
    if s == [] {
      assert ToRoutes(p, Fresh(s)) == [];
    } else {
      var n := |s| - 1;
      FreshRoutes(p, s[..n]);
      assert ToRoutes(p, s)[..n] == ToRoutes(p, s[..n]);
      FreshLast(s);
    }
  }

  lemma FreshLast(s: seq<PathEntry<AttrContent>>)
    requires s != []
    ensures var n := |s| - 1; Fresh(s) == Fresh(s[..n]) + if s[n].stale then [] else [s[n]]
  {
    hide Fresh;
    var n := |s| - 1;
    FreshConcat(s[..n], [s[n]]);
    FreshOne(s[n]);
    assert s == s[..n] + [s[n]];
  }

  /** A flush reports exactly the stored prefixes whose routes are all stale. */
  lemma FlushReportExact(f: Family, m: Store, p: Prefix)
    requires WellFormed(m) && Admitted(f, m)
    ensures p in FlushedPrefixes(f, m) <==> StoredPrefix(f, m, p) && forall r :: r in AllPaths(f, m, p) ==> r.stale
  {
    var ks := PostOrderRoots(f, AllStale(m), f.RootSize());
    var gone := map k | k in AllStale(m) :: m[k];
    forall k ensures k in ks <==> k in gone.Keys {
      PostOrderRootsMembers(f, AllStale(m), f.RootSize(), k);
      if k in m { OctetSlot(f, OctetOfKey(k)); }
    }
    ListedIffStored(f, gone, ks, p);
    if StoredPrefix(f, m, p) { AllStaleSeen(f, m, p); }
  }

  lemma AllStaleSeen(f: Family, m: Store, p: Prefix)
    requires StoredPrefix(f, m, p)
    ensures KeyOfPrefix(p) in AllStale(m) <==> forall r :: r in AllPaths(f, m, p) ==> r.stale
  {
    hide KeyOf, Masked;
    var s, rs := m[KeyOfPrefix(p)], AllPaths(f, m, p);
    if Fresh(s) == [] {
      forall r | r in rs ensures r.stale {
        var i :| 0 <= i < |rs| && rs[i] == r;
        FreshMember(s, s[i]);
      }
    } else {
      var e := Fresh(s)[0];
      FreshMember(s, e);
      var i :| 0 <= i < |s| && s[i] == e;
      assert rs[i] in rs && !rs[i].stale;
    }
  }

  /** One prefix lies strictly inside another. */
  ghost predicate Inside(p: Prefix, q: Prefix)
  {
    q.bits < p.bits && Contains(q, p.addr)
  }

  /** A flush reports a prefix after all reported prefixes inside it, and prefixes that do not nest in the
      order of their addresses. */
  lemma FlushReportOrder(f: Family, m: Store, i: nat, j: nat)
    requires i < j < |FlushedPrefixes(f, m)|
    ensures var p, q := FlushedPrefixes(f, m)[i], FlushedPrefixes(f, m)[j];
      Inside(p, q) || (!Inside(q, p) && p != q && p.addr.family == q.addr.family && Before(p, q))
  {
    hide PostOrderRoots, AllStale, Under, KeyOf, PrefixOf, Before, Depth, Inside, Sooner;
    var ks := PostOrderRoots(f, AllStale(m), f.RootSize());
    PostOrderRootsInSweepOrder(f, AllStale(m), f.RootSize());
    SweptOrder(f, ks[i], ks[j]);
  }

  lemma SweptOrder(f: Family, x: Key, y: Key)
    requires Depth(x) <= f.MaxLen() && Depth(y) <= f.MaxLen() && Sooner(f, x, y)
    ensures var p, q := PrefixOf(f, x), PrefixOf(f, y);
      Inside(p, q) || (!Inside(q, p) && p != q && p.addr.family == q.addr.family && Before(p, q))
  {
    InsideIff(f, x, y);
    InsideIff(f, y, x);
    if PrefixOf(f, x) == PrefixOf(f, y) { BeforeIsIrreflexive(PrefixOf(f, x)); }
    hide Inside, Before;
  }

  lemma InsideIff(f: Family, x: Key, y: Key)
    requires Depth(x) <= f.MaxLen() && Depth(y) <= f.MaxLen()
    ensures Inside(PrefixOf(f, x), PrefixOf(f, y)) <==> Under(y, x) && x != y
  {
    var n := f.Octets();
    if Under(y, x) { UnderDepth(y, x); }
    if Depth(y) < Depth(x) {
      UnderIff(y, x, n);
      SameKey(AddrOf(y, n), AddrOf(x, n), Depth(y));
      KeyOfAddrOf(y, n);
    }
    hide KeyOf, Masked, AddrOf, Under;
  }

  // ---- Batches ------------------------------------------------------------------------------------------

  /** A batch of announcements is the announcements one after the other, and its report lists, in order
      and as the caller wrote them, the prefixes that had no route just before. */
  lemma {:induction false} AnnouncementsCompose(f: Family, m: Store, a: seq<Announcement>, b: seq<Announcement>)
    ensures InsertRoutes(f, m, a + b) == InsertRoutes(f, InsertRoutes(f, m, a), b)
    ensures NewPrefixes(f, m, a + b) == NewPrefixes(f, m, a) + NewPrefixes(f, InsertRoutes(f, m, a), b)
  {
    hide InsertRoute, Announces;
    if b == [] {
      assert a + b == a;
    } else {
      var n := |b| - 1;
      AnnouncementsCompose(f, m, a, b[..n]);
      assert (a + b)[..|a + b| - 1] == a + b[..n];
    }
  }

  /** One announcement: what it stores, and when it is reported. */
  lemma AnnouncementAlone(f: Family, m: Store, r: Announcement)
    requires WellFormed(m)
    ensures InsertRoutes(f, m, [r]) == InsertRoute(f, m, r)
    ensures NewPrefixes(f, m, [r]) ==
      if AllPaths(f, m, r.prefix) == [] && AllPaths(f, InsertRoute(f, m, r), r.prefix) != [] then [r.prefix] else []
  {
    assert [r][..0] == [];
    hide KeyOf, Masked, SetPath, Family.Admits;
    if Accepts(f, r.prefix) { SetPathSome(At(m, KeyOfPrefix(r.prefix)), r.pathID, r.attributes); }
  }

  lemma SetPathSome(s: seq<PathEntry<AttrContent>>, id: uint32, attrs: AttrContent)
    ensures SetPath(s, id, attrs, false) != []
  {
  }

  lemma {:induction false} WithdrawalsCompose(f: Family, m: Store, a: seq<Withdrawal>, b: seq<Withdrawal>)
    ensures DeleteRoutes(f, m, a + b) == DeleteRoutes(f, DeleteRoutes(f, m, a), b)
    ensures RemovedPrefixes(f, m, a + b) == RemovedPrefixes(f, m, a) + RemovedPrefixes(f, DeleteRoutes(f, m, a), b)
  {
    hide DeleteRoute, Withdraws;
    if b == [] {
      assert a + b == a;
    } else {
      var n := |b| - 1;
      WithdrawalsCompose(f, m, a, b[..n]);
      assert (a + b)[..|a + b| - 1] == a + b[..n];
    }
  }

  /** One withdrawal: what it removes, and when it is reported. */
  lemma WithdrawalAlone(f: Family, m: Store, w: Withdrawal)
    requires WellFormed(m)
    ensures DeleteRoutes(f, m, [w]) == DeleteRoute(f, m, w)
    ensures RemovedPrefixes(f, m, [w]) ==
      if AllPaths(f, m, w.prefix) != [] && AllPaths(f, DeleteRoute(f, m, w), w.prefix) == [] then [w.prefix] else []
  {
    assert [w][..0] == [];
    hide KeyOf, Masked, DeletePath;
  }

  // ---- Attribute queries --------------------------------------------------------------------------------

  /** The routes among `rs` whose attributes meet a query, in order. */
  ghost function Chosen(q: Query, rs: seq<Announcement>): seq<Announcement>
  {
    if rs == [] then []
    else Chosen(q, rs[..|rs| - 1]) + if Meets(q, rs[|rs| - 1].attributes) then [rs[|rs| - 1]] else []
  }

  ghost function ChosenOfAll(f: Family, m: Store, q: Query, ps: seq<Prefix>): seq<Announcement>
  {
    if ps == [] then []
    else ChosenOfAll(f, m, q, ps[..|ps| - 1]) + Chosen(q, AllPaths(f, m, ps[|ps| - 1]))
  }

  /** A query over the table lists, prefix by prefix in the order of the enumeration, the routes of that
      prefix that meet it. */
  lemma MatchingExact(f: Family, m: Store, q: Query)
    requires Admitted(f, m)
    ensures MatchingAll(f, m, q) == ChosenOfAll(f, m, q, AllPrefixes(f, m))
  {
    MatchingChosen(f, m, q, PreOrderRoots(f, m.Keys, f.ScanLimit()));
  }

  lemma {:induction false} MatchingChosen(f: Family, m: Store, q: Query, l: seq<Key>)
    requires forall x :: x in l ==> Depth(x) <= f.MaxLen()
    ensures Matching(f, m, q, l) == ChosenOfAll(f, m, q, ToPrefixes(f, l))
  {
    if l != [] {
      var n := |l| - 1;
      MatchingChosen(f, m, q, l[..n]);
      LastChosen(f, m, q, l);
      LastPrefix(f, l);
      hide Matching, AllPaths, Chosen, ToPrefixes, Depth;
    }
  }

  lemma LastPrefix(f: Family, l: seq<Key>)
    requires l != [] && forall x :: x in l ==> Depth(x) <= f.MaxLen()
    ensures var n := |l| - 1;
      Depth(l[n]) <= f.MaxLen() && ToPrefixes(f, l) == ToPrefixes(f, l[..n]) + [PrefixOf(f, l[n])]
  {
    hide PrefixOf, Depth;
    assert l[|l| - 1] in l;
  }

  lemma LastChosen(f: Family, m: Store, q: Query, l: seq<Key>)
    requires l != [] && forall x :: x in l ==> Depth(x) <= f.MaxLen()
    ensures var n := |l| - 1;
      && Depth(l[n]) <= f.MaxLen()
      && Matching(f, m, q, l) == Matching(f, m, q, l[..n]) + Chosen(q, AllPaths(f, m, PrefixOf(f, l[n])))
  {
    hide MatchingAt, Chosen, AllPaths, PrefixOf, Depth;
    var n := |l| - 1;
    assert l[n] in l;
    MatchingAtChosen(PrefixOf(f, l[n]), At(m, l[n]), q);
    RoutesAtKey(f, m, l[n]);
  }

  lemma {:induction false} MatchingAtChosen(p: Prefix, s: seq<PathEntry<AttrContent>>, q: Query)
    ensures MatchingAt(p, s, q) == Chosen(q, ToRoutes(p, s))
  {
    if s != [] {
      var n := |s| - 1;
      MatchingAtChosen(p, s[..n], q);
      assert ToRoutes(p, s)[..n] == ToRoutes(p, s[..n]);
      HoldsMeets(q, s[n].attrs);
      hide Query.Holds, Meets;
    }
  }

  lemma RoutesAtKey(f: Family, m: Store, k: Key)
    requires Depth(k) <= f.MaxLen()
    ensures AllPaths(f, m, PrefixOf(f, k)) == ToRoutes(PrefixOf(f, k), At(m, k))
  {
    KeyOfAddrOf(k, f.Octets());
    AddrOfKeyOf(AddrOf(k, f.Octets()), Depth(k));
  }

  /** Which routes a query lists: those of stored prefixes that pass the test it spells out. */
  lemma MatchingMembers(f: Family, m: Store, q: Query, r: Announcement)
    requires WellFormed(m) && Admitted(f, m)
    ensures r in MatchingAll(f, m, q) <==>
      r.prefix in AllPrefixes(f, m) && r in AllPaths(f, m, r.prefix) && Meets(q, r.attributes)
  {
    MatchingExact(f, m, q);
    ChosenOfAllMembers(f, m, q, AllPrefixes(f, m), r);
    EnumerationRoundTrip(f, m);
    hide AllPrefixes, MatchingAll, ChosenOfAll, Meets, WellFormed, Admitted;
    forall p | p in AllPrefixes(f, m) && r in AllPaths(f, m, p) ensures p == r.prefix {
    }
  }

  lemma {:induction false} ChosenOfAllMembers(f: Family, m: Store, q: Query, ps: seq<Prefix>, r: Announcement)
    ensures r in ChosenOfAll(f, m, q, ps) <==>
      Meets(q, r.attributes) && exists p :: p in ps && r in AllPaths(f, m, p)
  {
    hide AllPaths, Meets, Chosen;
    if ps != [] {
      var n := |ps| - 1;
      ChosenOfAllMembers(f, m, q, ps[..n], r);
      ChosenMembers(q, AllPaths(f, m, ps[n]), r);
      assert ps == ps[..n] + [ps[n]];
    }
  }

  lemma {:induction false} ChosenMembers(q: Query, rs: seq<Announcement>, r: Announcement)
    ensures r in Chosen(q, rs) <==> r in rs && Meets(q, r.attributes)
  {
    hide Meets;
    if rs != [] {
      var n := |rs| - 1;
      ChosenMembers(q, rs[..n], r);
      assert rs == rs[..n] + [rs[n]];
    }
  }

  // ---- Counts -------------------------------------------------------------------------------------------

  /** The count kept for a length is the number of enumerated prefixes of that length. */
  lemma SubnetsExact(f: Family, m: Store, len: int)
    requires Admitted(f, m)
    ensures |OfLength(m, len)| == |set p | p in AllPrefixes(f, m) && p.bits == len|
  {
    var s, ps := OfLength(m, len), set p | p in AllPrefixes(f, m) && p.bits == len;
    var l := PreOrderRoots(f, m.Keys, f.ScanLimit());
    EveryKeyListed(f, m);
    forall p ensures p in ps <==> p in Named(f, s) {
      if p in ps {
        var i :| 0 <= i < |l| && AllPrefixes(f, m)[i] == p;
        assert l[i] in l && l[i] in s;
      }
      if p in Named(f, s) {
        var k :| k in s && p == PrefixOf(f, k);
        assert k in l;
        var i :| 0 <= i < |l| && l[i] == k;
        assert AllPrefixes(f, m)[i] == p;
      }
    }
    assert ps == Named(f, s);
    NamedOnce(f, s);
  }

  ghost function Named(f: Family, s: set<Key>): set<Prefix>
    requires forall k :: k in s ==> Depth(k) <= f.MaxLen()
  {
    set k | k in s :: PrefixOf(f, k)
  }

  lemma {:induction false} NamedOnce(f: Family, s: set<Key>)
    requires forall k :: k in s ==> Depth(k) <= f.MaxLen()
    ensures |Named(f, s)| == |s|
  {
    if s == {} {
      assert Named(f, s) == {};
    } else {
      var k :| k in s;
      NamedOnce(f, s - {k});
      forall l | l in s && l != k ensures PrefixOf(f, l) != PrefixOf(f, k) {
        KeyOfAddrOf(k, f.Octets());
        KeyOfAddrOf(l, f.Octets());
      }
      assert Named(f, s) == Named(f, s - {k}) + {PrefixOf(f, k)};
    }
  }

  function TotalPaths(f: Family, m: Store, ps: seq<Prefix>): nat
  {
    if ps == [] then 0 else TotalPaths(f, m, ps[..|ps| - 1]) + |AllPaths(f, m, ps[|ps| - 1])|
  }

  /** The path count is the number of routes callers get by asking for all paths of every prefix. */
  lemma PathCountExact(f: Family, m: Store)
    requires Admitted(f, m)
    ensures |Slots(m)| == TotalPaths(f, m, AllPrefixes(f, m))
  {
    var l := PreOrderRoots(f, m.Keys, f.ScanLimit());
    ListedOnce(f, m);
    SlotsListed(f, m, l);
    hide PreOrderRoots, ToPrefixes, TotalPaths, Admitted;
    assert Slots(m) == SlotsOfKeys(m, l);
  }

  lemma ListedOnce(f: Family, m: Store)
    requires Admitted(f, m)
    ensures var l := PreOrderRoots(f, m.Keys, f.ScanLimit()); Distinct(l) && forall k :: k in l <==> k in m
  {
    hide PreOrderRoots, Before, PrefixOf, Depth, OctetOfKey;
    EveryKeyListed(f, m);
    PreOrderRootsInOrder(f, m.Keys, f.ScanLimit());
    var l := PreOrderRoots(f, m.Keys, f.ScanLimit());
    forall i, j | 0 <= i < j < |l| ensures l[i] != l[j] {
      BeforeIsIrreflexive(PrefixOf(f, l[j]));
    }
  }

  lemma {:induction false} SlotsListed(f: Family, m: Store, l: seq<Key>)
    requires Distinct(l) && forall k :: k in l ==> k in m && Depth(k) <= f.MaxLen()
    ensures |SlotsOfKeys(m, l)| == TotalPaths(f, m, ToPrefixes(f, l))
  {
    hide ToPrefixes, AllPaths, Depth, PrefixOf;
    if l == [] {
      assert SlotsOfKeys(m, l) == {};
      assert ToPrefixes(f, l) == [];
    } else {
      var n := |l| - 1;
      SlotsListed(f, m, l[..n]);
      LastPrefix(f, l);
      RoutesAtKey(f, m, l[n]);
      SlotsLast(m, l);
    }
  }

  lemma SlotsLast(m: Store, l: seq<Key>)
    requires l != [] && Distinct(l) && forall k :: k in l ==> k in m
    ensures var n := |l| - 1; l[n] in m && |SlotsOfKeys(m, l)| == |SlotsOfKeys(m, l[..n])| + |m[l[n]]|
  {
    var n := |l| - 1;
    SlotsOfOne(l[n], |m[l[n]]|);
    assert l == l[..n] + [l[n]];
    assert SlotsOfKeys(m, l) == SlotsOfKeys(m, l[..n]) + SlotsUpTo(l[n], |m[l[n]]|);
  }

  ghost function SlotsOfKeys(m: Store, l: seq<Key>): set<(Key, int)>
    requires forall k :: k in l ==> k in m
  {
    set k, i | k in l && 0 <= i < |m[k]| :: (k, i)
  }
}
