/** Graceful restart: after marking everything stale, whatever a peer announces and withdraws before
    the flush, the flushed RIB is the one the peer would have built from nothing. */
module Restart {
  import opened Addressing
  import opened Attributes
  import opened PathSeq
  import opened Reference
  import opened RibModel
  import opened Selection
  import opened Sweeps

  datatype Edit = Announce(route: Announcement) | Withdraw(path: Withdrawal)

  function Apply(f: Family, m: Store, e: Edit): Store
  {
    match e
    case Announce(r) => InsertRoute(f, m, r)
    case Withdraw(w) => DeleteRoute(f, m, w)
  }

  function ApplyAll(f: Family, m: Store, es: seq<Edit>): Store
  {
    if es == [] then m else Apply(f, ApplyAll(f, m, es[..|es| - 1]), es[|es| - 1])
  }

  /** The same non-stale attributes under every prefix and path ID. */
  ghost predicate SameFresh(m: Store, n: Store)
  {
    forall k, id :: FreshAt(At(m, k), id) == FreshAt(At(n, k), id)
  }

  ghost predicate NothingStale(m: Store)
  {
    forall k :: k in m ==> Fresh(m[k]) == m[k]
  }

  lemma ApplyKeepsWellFormed(f: Family, m: Store, e: Edit)
    requires WellFormed(m)
    ensures WellFormed(Apply(f, m, e))
  {
    match e
    case Announce(r) =>
      if Accepts(f, r.prefix) { EditsKeepWellFormed(m, KeyOfPrefix(r.prefix), r.pathID, r.attributes); }
    case Withdraw(w) =>
      if Concerns(f, w.prefix) { EditsKeepWellFormed(m, KeyOfPrefix(w.prefix), w.pathID, EMPTY); }
  }

  /** An edit acts on the non-stale view without looking at stale paths, even when it reuses a stale
      slot under another path ID. */
  lemma ApplyView(f: Family, m: Store, e: Edit, k: Key, id: uint32)
    requires WellFormed(m)
    ensures FreshAt(At(Apply(f, m, e), k), id) ==
      match e
      case Announce(r) =>
        if Accepts(f, r.prefix) && k == KeyOfPrefix(r.prefix) && id == r.pathID then Some(r.attributes)
        else FreshAt(At(m, k), id)
      case Withdraw(w) =>
        if Concerns(f, w.prefix) && k == KeyOfPrefix(w.prefix) && id == w.pathID then None else FreshAt(At(m, k), id)
  {
    match e
    case Announce(r) =>
      if Accepts(f, r.prefix) && k == KeyOfPrefix(r.prefix) { SetPathView(At(m, k), r.pathID, r.attributes, id); }
    case Withdraw(w) =>
      if Concerns(f, w.prefix) && k == KeyOfPrefix(w.prefix) { DeletePathView(At(m, k), w.pathID, id); }
  }

  lemma {:induction false} ApplyAllSameFresh(f: Family, m: Store, n: Store, es: seq<Edit>)
    requires WellFormed(m) && WellFormed(n) && SameFresh(m, n)
    ensures var a, b := ApplyAll(f, m, es), ApplyAll(f, n, es);
      WellFormed(a) && WellFormed(b) && SameFresh(a, b)
  {
    if es != [] {
      var last := |es| - 1;
      ApplyAllSameFresh(f, m, n, es[..last]);
      var a, b, e := ApplyAll(f, m, es[..last]), ApplyAll(f, n, es[..last]), es[last];
      hide WellFormed, Apply, FreshAt, At;
      ApplyKeepsWellFormed(f, a, e);
      ApplyKeepsWellFormed(f, b, e);
      forall k, id ensures FreshAt(At(Apply(f, a, e), k), id) == FreshAt(At(Apply(f, b, e), k), id) {
        ApplyView(f, a, e, k, id);
        ApplyView(f, b, e, k, id);
      }
    }
  }

  lemma SetPathStaysFresh<A>(s: seq<PathEntry<A>>, id: uint32, attrs: A)
    requires Fresh(s) == s
    ensures var t := SetPath(s, id, attrs, false); Fresh(t) == t
    ensures Fresh(DeletePath(s, id)) == DeletePath(s, id)
  {
    var t, d := SetPath(s, id, attrs, false), DeletePath(s, id);
    FreshNothingStale(s);
    FreshNothingStale(t);
    FreshNothingStale(d);
    NoneStale(t);
    NoneStale(d);
  }

  lemma NoneStale<A>(s: seq<PathEntry<A>>)
    ensures (forall i :: 0 <= i < |s| ==> !s[i].stale) ==> FirstStale(s) == |s|
  {
  }

  lemma {:induction false} ScratchStaysFresh(f: Family, m: Store, es: seq<Edit>)
    requires NothingStale(m)
    ensures NothingStale(ApplyAll(f, m, es))
  {
    if es != [] {
      var last := |es| - 1;
      ScratchStaysFresh(f, m, es[..last]);
      ApplyStaysFresh(f, ApplyAll(f, m, es[..last]), es[last]);
    }
  }

  lemma WithStaysFresh(m: Store, k: Key, s: seq<PathEntry<AttrContent>>)
    requires NothingStale(m) && Fresh(s) == s
    ensures NothingStale(With(m, k, s))
  {
    hide Fresh;
  }

  lemma NoneThere(m: Store, k: Key)
    requires NothingStale(m)
    ensures Fresh(At(m, k)) == At(m, k)
  {
  }

  lemma ApplyStaysFresh(f: Family, m: Store, e: Edit)
    requires NothingStale(m)
    ensures NothingStale(Apply(f, m, e))
  {
    hide NothingStale, Fresh, SetPath, DeletePath, At, With, KeyOf;
    match e
    case Announce(r) =>
      if Accepts(f, r.prefix) {
        var k := KeyOfPrefix(r.prefix);
        NoneThere(m, k);
        SetPathStaysFresh(At(m, k), r.pathID, r.attributes);
        WithStaysFresh(m, k, SetPath(At(m, k), r.pathID, r.attributes, false));
      }
    case Withdraw(w) =>
      if Concerns(f, w.prefix) {
        var k := KeyOfPrefix(w.prefix);
        NoneThere(m, k);
        SetPathStaysFresh(At(m, k), w.pathID, EMPTY);
        WithStaysFresh(m, k, DeletePath(At(m, k), w.pathID));
      }
  }

  /** Two RIBs without stale paths and with the same view store the same paths up to order. */
  lemma SameFreshSamePaths(m: Store, n: Store)
    requires WellFormed(m) && WellFormed(n) && NothingStale(m) && NothingStale(n) && SameFresh(m, n)
    ensures m.Keys == n.Keys
    ensures forall k :: k in m ==> multiset(m[k]) == multiset(n[k])
  {
    forall k ensures (k in m <==> k in n) && multiset(At(m, k)) == multiset(At(n, k)) {
      SamePathsAt(m, n, k);
    }
  }

  lemma SamePathsAt(m: Store, n: Store, k: Key)
    requires WellFormed(m) && WellFormed(n) && NothingStale(m) && NothingStale(n) && SameFresh(m, n)
    ensures (k in m <==> k in n) && multiset(At(m, k)) == multiset(At(n, k))
  {
    var s, t := At(m, k), At(n, k);
    assert UniqueIDs(s) && UniqueIDs(t);
    forall id ensures FreshAt(s, id) == FreshAt(t, id) {
    }
    SameViewSamePaths(s, t);
    assert |multiset(s)| == |s| && |multiset(t)| == |t|;
  }

  lemma DropStaleView(m: Store)
    requires WellFormed(m)
    ensures SameFresh(DropStale(m), m) && NothingStale(DropStale(m)) && WellFormed(DropStale(m))
  {
    forall k, id ensures FreshAt(At(DropStale(m), k), id) == FreshAt(At(m, k), id) {
      if k in m { FreshView(m[k], id); }
    }
    forall k | k in m ensures Fresh(Fresh(m[k])) == Fresh(m[k]) {
      FreshNothingStale(m[k]);
      FreshNothingStale(Fresh(m[k]));
    }
    var k: Key := Root(0);
    EditsKeepWellFormed(m, k, 0, EMPTY);
  }

  lemma MarkAllStaleView(m: Store)
    requires WellFormed(m)
    ensures SameFresh(MarkAllStale(m), map[]) && WellFormed(MarkAllStale(m))
  {
    forall k, id ensures FreshAt(At(MarkAllStale(m), k), id) == None {
      if k in m { MarkStaleView(m[k], id); }
    }
    var k: Key := Root(0);
    EditsKeepWellFormed(m, k, 0, EMPTY);
  }

  /** The restart theorem: prefix by prefix and path ID by path ID, the flushed RIB holds the attributes
      the same announcements and withdrawals give from nothing, and nothing else. */
  lemma GracefulRestart(f: Family, m: Store, es: seq<Edit>)
    requires WellFormed(m)
    ensures var restarted := DropStale(ApplyAll(f, MarkAllStale(m), es));
      var scratch := ApplyAll(f, map[], es);
      SameFresh(restarted, scratch) && NothingStale(restarted) && NothingStale(scratch)
  {
    MarkAllStaleView(m);
    ApplyAllSameFresh(f, MarkAllStale(m), map[], es);
    var marked, scratch := ApplyAll(f, MarkAllStale(m), es), ApplyAll(f, map[], es);
    DropStaleView(marked);
    ScratchStaysFresh(f, map[], es);
    SameFreshTrans(DropStale(marked), marked, scratch);
  }

  /** In particular the stored prefixes are the same, with the same paths up to their order. */
  lemma RestartPaths(f: Family, m: Store, es: seq<Edit>)
    requires WellFormed(m)
    ensures var restarted := DropStale(ApplyAll(f, MarkAllStale(m), es));
      var scratch := ApplyAll(f, map[], es);
      && WellFormed(restarted) && WellFormed(scratch)
      && restarted.Keys == scratch.Keys
      && forall k :: k in restarted ==> multiset(restarted[k]) == multiset(scratch[k])
  {
    GracefulRestart(f, m, es);
    MarkAllStaleView(m);
    ApplyAllSameFresh(f, MarkAllStale(m), map[], es);
    DropStaleView(ApplyAll(f, MarkAllStale(m), es));
    hide *;
    SameFreshSamePaths(DropStale(ApplyAll(f, MarkAllStale(m), es)), ApplyAll(f, map[], es));
  }

  lemma SameFreshTrans(a: Store, b: Store, c: Store)
    requires SameFresh(a, b) && SameFresh(b, c)
    ensures SameFresh(a, c)
  {
    forall k, id ensures FreshAt(At(a, k), id) == FreshAt(At(c, k), id) {
      assert FreshAt(At(a, k), id) == FreshAt(At(b, k), id);
    }
  }

  /** Consequently every longest-prefix search gives the same answer after the restart. */
  lemma RestartSearch(f: Family, m: Store, es: seq<Edit>, ip: Addr)
    requires WellFormed(m)
    ensures Search(f, DropStale(ApplyAll(f, MarkAllStale(m), es)), ip) == Search(f, ApplyAll(f, map[], es), ip)
  {
    RestartPaths(f, m, es);
    hide *;
    SamePathsSearch(f, DropStale(ApplyAll(f, MarkAllStale(m), es)), ApplyAll(f, map[], es), ip);
  }

  lemma SamePathsSearch(f: Family, a: Store, b: Store, ip: Addr)
    requires WellFormed(a) && WellFormed(b) && a.Keys == b.Keys
    requires forall k :: k in a ==> multiset(a[k]) == multiset(b[k])
    ensures Search(f, a, ip) == Search(f, b, ip)
  {
    if ip.family == f {
      SameMatchLen(a, b, ip.bytes, f.MaxLen());
      var len := MatchLen(a, ip.bytes, f.MaxLen());
      if len != 0 {
        BestIgnoresOrder(a[KeyOf(ip.bytes, len)], b[KeyOf(ip.bytes, len)]);
      }
    }
  }

  lemma {:induction false} SameMatchLen(a: Store, b: Store, bytes: seq<bv8>, hi: nat)
    requires a.Keys == b.Keys && hi <= 8 * |bytes|
    ensures MatchLen(a, bytes, hi) == MatchLen(b, bytes, hi)
  {
    if hi >= 8 && KeyOf(bytes, hi) !in a.Keys { SameMatchLen(a, b, bytes, hi - 1); }
  }

  // ---- Counters across a resync -------------------------------------------------------------------------

  function InsertAt<A>(m: PathMap<A>, k: Key, routes: seq<(uint32, A)>): PathMap<A>
  {
    if routes == [] then m
    else Insert(InsertAt(m, k, routes[..|routes| - 1]), k, routes[|routes| - 1].0, routes[|routes| - 1].1)
  }

  lemma {:induction false} InsertAtIsSetPaths<A>(m: PathMap<A>, k: Key, routes: seq<(uint32, A)>)
    requires k in m ==> m[k] != []
    ensures InsertAt(m, k, routes) == With(m, k, SetPaths(At(m, k), routes))
  {
    if routes == [] {
      assert m == With(m, k, At(m, k));
    } else {
      var n := |routes| - 1;
      InsertAtIsSetPaths(m, k, routes[..n]);
      hide With, SetPath;
      WithWith(m, k, SetPaths(At(m, k), routes[..n]), SetPaths(At(m, k), routes));
    }
  }

  /** Re-announcing m paths of a prefix that held n, all stale, raises the number of stored paths by
      exactly max(0, m - n): a resync never doubles a prefix. */
  lemma ResyncCounts<A>(m: PathMap<A>, k: Key, routes: seq<(uint32, A)>)
    requires WellFormed(m) && Fresh(At(m, k)) == []
    requires forall i, j :: 0 <= i < j < |routes| ==> routes[i].0 != routes[j].0
    ensures var n := |At(m, k)|;
      |Occurrences(InsertAt(m, k, routes))| == |Occurrences(m)| + (if |routes| > n then |routes| - n else 0)
  {
    NoDoubling(At(m, k), routes);
    InsertAtIsSetPaths(m, k, routes);
    WithPaths(m, k, SetPaths(At(m, k), routes));
  }
}
