/** Best-path selection, within one prefix and over a slice of candidate routes. */
module Selection {
  import opened Addressing
  import opened Attributes
  import opened PathSeq

  datatype Route<A> = Route(prefix: Prefix, attributes: A, pathID: uint32, stale: bool)

  function EffectivePref(c: AttrContent): uint32
  {
    if c.localPref == 0 then 100 else c.localPref
  }

  /** Higher local preference, then shorter AS path, then lower path ID. */
  predicate Better(c: AttrContent, id: uint32, d: AttrContent, jd: uint32)
  {
    var lp1, lp2 := EffectivePref(c), EffectivePref(d);
    lp1 > lp2 || (lp1 == lp2 && (|c.asPath| < |d.asPath| || (|c.asPath| == |d.asPath| && id < jd)))
  }

  predicate BetterEntry(e: PathEntry<AttrContent>, f: PathEntry<AttrContent>)
  {
    Better(e.attrs, e.pathID, f.attrs, f.pathID)
  }

  /** Beats every other path. */
  ghost predicate IsBest(s: seq<PathEntry<AttrContent>>, i: nat)
  {
    i < |s| && forall j :: 0 <= j < |s| && j != i ==> BetterEntry(s[i], s[j])
  }

  /** The scan over the first `n` paths. */
  function BestOf(s: seq<PathEntry<AttrContent>>, n: nat): (i: nat)
    requires 0 < n <= |s|
    ensures i < n
  {
    if n == 1 then 0
    else
      var b := BestOf(s, n - 1);
      if BetterEntry(s[n - 1], s[b]) then n - 1 else b
  }

  function Best(s: seq<PathEntry<AttrContent>>): (i: nat)
    requires s != []
    ensures i < |s|
  {
    BestOf(s, |s|)
  }

  /** The scan finds the first path that none of those scanned beats. */
  lemma {:induction false} BestOfBeats(s: seq<PathEntry<AttrContent>>, n: nat)
    requires 0 < n <= |s|
    ensures forall j :: 0 <= j < n ==> !BetterEntry(s[j], s[BestOf(s, n)])
    ensures forall j :: 0 <= j < BestOf(s, n) ==> BetterEntry(s[BestOf(s, n)], s[j])
  {
    if n > 1 { BestOfBeats(s, n - 1); }
  }

  lemma BestWins(s: seq<PathEntry<AttrContent>>, i: nat)
    requires UniqueIDs(s) && i < |s|
    ensures i == Best(s) || BetterEntry(s[Best(s)], s[i])
  {
    BestOfBeats(s, |s|);
    assert i == Best(s) || s[Best(s)].pathID != s[i].pathID;
    assert !BetterEntry(s[i], s[Best(s)]);
  }

  /** With unique IDs the result is the one path that beats all others. */
  lemma BestIsOptimum(s: seq<PathEntry<AttrContent>>, i: nat)
    requires s != [] && UniqueIDs(s)
    ensures IsBest(s, i) <==> i == Best(s)
  {
    var b := Best(s);
    forall j | 0 <= j < |s| && j != b ensures BetterEntry(s[b], s[j]) {
      BestWins(s, j);
    }
    assert i < |s| && i != b ==> BetterEntry(s[b], s[i]);
  }

  /** The optimum of a path set does not depend on the order in which its paths are stored. */
  lemma BestIgnoresOrder(s: seq<PathEntry<AttrContent>>, t: seq<PathEntry<AttrContent>>)
    requires s != [] && UniqueIDs(s) && UniqueIDs(t) && multiset(s) == multiset(t)
    ensures t != [] && s[Best(s)] == t[Best(t)]
  {
    assert s[0] in multiset(s);
    assert s[0] in t;
    var b, c := Best(s), Best(t);
    assert s[b] in multiset(t) && t[c] in multiset(s);
    var i :| 0 <= i < |t| && t[i] == s[b];
    var j :| 0 <= j < |s| && s[j] == t[c];
    BestWins(t, i);
    BestWins(s, j);
  }

  // ---- SelectBest -----------------------------------------------------------------------------

  /** `r` is beaten by `q`: a route without attributes loses to any route with attributes. */
  predicate Beats(q: Route<Option<AttrContent>>, r: Route<Option<AttrContent>>)
  {
    q.attributes.Some? && (r.attributes.None? || Better(q.attributes.value, q.pathID, r.attributes.value, r.pathID))
  }

  /** What SelectBest picks: the first route that nothing beats. */
  ghost predicate Selected(rs: seq<Route<Option<AttrContent>>>, i: nat)
  {
    && i < |rs|
    && (forall j :: 0 <= j < |rs| ==> !Beats(rs[j], rs[i]))
    && (forall j :: 0 <= j < i ==> Beats(rs[i], rs[j]))
  }

  function ContentOf(a: RouteAttributes): AttrContent
  {
    a.Content()
  }

  function OptionalContent(a: RouteAttributes?): Option<AttrContent>
  {
    if a == null then None else Some(a.Content())
  }

  function MapRoute<A, B>(f: A -> B, r: Route<A>): Route<B>
  {
    Route(r.prefix, f(r.attributes), r.pathID, r.stale)
  }

  function MapRoutes<A, B>(f: A -> B, rs: seq<Route<A>>): (r: seq<Route<B>>)
    ensures |r| == |rs|
  {
    seq(|rs|, i requires 0 <= i < |rs| => MapRoute(f, rs[i]))
  }

  /** The comparison both scans make, criterion by criterion. */
  method Prefer(attr: RouteAttributes, id: uint32, best: RouteAttributes, bestID: uint32) returns (r: bool)
    ensures r == Better(attr.Content(), id, best.Content(), bestID)
  {
    var lp1 := attr.localPref;
    if lp1 == 0 { lp1 := 100; }
    var lp2 := best.localPref;
    if lp2 == 0 { lp2 := 100; }
    if lp1 > lp2 {
      return true;
    }
    if lp1 < lp2 {
      return false;
    }
    if |attr.asPath| < |best.asPath| {
      return true;
    }
    if |attr.asPath| > |best.asPath| {
      return false;
    }
    return id < bestID;
  }

  method SelectBest(routes: seq<Route<RouteAttributes?>>) returns (r: Option<nat>)
    ensures r.None? <==> routes == []
    ensures r.Some? ==> Selected(MapRoutes(OptionalContent, routes), r.value)
  {
    if |routes| == 0 {
      return None;
    }
    ghost var rs := MapRoutes(OptionalContent, routes);
    var best := 0;
    for i := 1 to |routes|
      invariant 0 <= best < i
      invariant forall j :: 0 <= j < i ==> !Beats(rs[j], rs[best])
      invariant forall j :: 0 <= j < best ==> Beats(rs[best], rs[j])
    {
      var curr := routes[i];
      if curr.attributes == null {
        continue;
      }
      if routes[best].attributes == null {
        best := i;
        continue;
      }
      var better := Prefer(curr.attributes, curr.pathID, routes[best].attributes, routes[best].pathID);
      if better {
        best := i;
      }
    }
    return Some(best);
  }

  lemma SelectedUnique(rs: seq<Route<Option<AttrContent>>>, i: nat, j: nat)
    requires Selected(rs, i) && Selected(rs, j)
    ensures i == j
  {
    Unbeaten(rs, i, j);
    Unbeaten(rs, j, i);
  }

  lemma Unbeaten(rs: seq<Route<Option<AttrContent>>>, i: nat, j: nat)
    requires Selected(rs, i) && j < |rs|
    ensures !Beats(rs[j], rs[i]) && (j < i ==> Beats(rs[i], rs[j]))
  {
  }

  /** A route nothing in the slice beats. */
  ghost predicate Contender(rs: seq<Route<Option<AttrContent>>>, r: Route<Option<AttrContent>>)
  {
    r in rs && forall q :: q in rs ==> !Beats(q, r)
  }

  /** SelectBest gives the same route for every order of the candidates. */
  ghost predicate OrderIndependent(rs: seq<Route<Option<AttrContent>>>)
  {
    forall ts, i: nat, j: nat :: multiset(ts) == multiset(rs) && Selected(rs, i) && Selected(ts, j) ==> ts[j] == rs[i]
  }

  ghost predicate OneContender(rs: seq<Route<Option<AttrContent>>>)
  {
    forall r, q :: Contender(rs, r) && Contender(rs, q) ==> r == q
  }

  lemma SelectedIsContender(rs: seq<Route<Option<AttrContent>>>, ts: seq<Route<Option<AttrContent>>>, j: nat)
    requires multiset(ts) == multiset(rs) && Selected(ts, j)
    ensures Contender(rs, ts[j])
  {
    assert ts[j] in multiset(ts);
    forall q | q in rs ensures !Beats(q, ts[j]) {
      assert q in multiset(ts);
      var n :| 0 <= n < |ts| && ts[n] == q;
    }
  }

  /** Any contender is selected once it is moved to the front. */
  lemma ContenderCanWin(rs: seq<Route<Option<AttrContent>>>, r: Route<Option<AttrContent>>)
      returns (ts: seq<Route<Option<AttrContent>>>)
    requires Contender(rs, r)
    ensures multiset(ts) == multiset(rs) && Selected(ts, 0) && ts[0] == r
  {
    var n :| 0 <= n < |rs| && rs[n] == r;
    ts := [r] + rs[..n] + rs[n + 1..];
    assert rs == rs[..n] + [r] + rs[n + 1..];
    forall j | 0 <= j < |ts| ensures !Beats(ts[j], r) {
      assert ts[j] in multiset(ts);
      assert ts[j] in rs;
    }
  }

  lemma {:induction false} SomeoneSelected(rs: seq<Route<Option<AttrContent>>>) returns (i: nat)
    requires rs != []
    ensures Selected(rs, i)
  {
    var n := |rs| - 1;
    if n == 0 {
      i := 0;
    } else {
      i := SomeoneSelected(rs[..n]);
      assert forall j :: 0 <= j < n ==> rs[..n][j] == rs[j];
      if Beats(rs[n], rs[i]) { i := n; }
    }
  }

  /** SelectBest is order independent exactly when only one distinct route is unbeaten. */
  lemma OrderIndependence(rs: seq<Route<Option<AttrContent>>>)
    ensures OrderIndependent(rs) <==> OneContender(rs)
  {
    if OneContender(rs) {
      forall ts, i: nat, j: nat | multiset(ts) == multiset(rs) && Selected(rs, i) && Selected(ts, j)
        ensures ts[j] == rs[i]
      {
        SelectedIsContender(rs, rs, i);
        SelectedIsContender(rs, ts, j);
      }
    }
    if OrderIndependent(rs) {
      forall r, q | Contender(rs, r) && Contender(rs, q) ensures r == q {
        var i := SomeoneSelected(rs);
        var ts := ContenderCanWin(rs, r);
        var us := ContenderCanWin(rs, q);
        assert multiset(ts) == multiset(rs) && Selected(rs, i) && Selected(ts, 0);
        assert ts[0] == rs[i];
        assert multiset(us) == multiset(rs) && Selected(us, 0);
        assert us[0] == rs[i];
      }
    }
  }

  /** Distinct IDs and at least one route with attributes are enough. */
  lemma DistinctIDsOrderIndependent(rs: seq<Route<Option<AttrContent>>>)
    requires forall i, j :: 0 <= i < j < |rs| ==> rs[i].pathID != rs[j].pathID
    requires exists i :: 0 <= i < |rs| && rs[i].attributes.Some?
    ensures OrderIndependent(rs)
  {
    forall r, q | Contender(rs, r) && Contender(rs, q) ensures r == q {
      var i :| 0 <= i < |rs| && rs[i].attributes.Some?;
      assert rs[i] in rs;
      assert !Beats(r, q) && !Beats(q, r);
    }
    OrderIndependence(rs);
  }

  /** Without attributes anywhere the first route wins, so the order shows. */
  lemma AllNilDependsOnOrder(p: Prefix)
    ensures !OrderIndependent([Route(p, None, 1, false), Route(p, None, 2, false)])
  {
    TwoContenders(Route(p, None, 1, false), Route(p, None, 2, false));
  }

  lemma TwoContenders(r: Route<Option<AttrContent>>, q: Route<Option<AttrContent>>)
    requires r != q && !Beats(r, q) && !Beats(q, r) && !Beats(r, r) && !Beats(q, q)
    ensures !OrderIndependent([r, q])
  {
    assert Contender([r, q], r) && Contender([r, q], q);
    OrderIndependence([r, q]);
  }

  // ---- The order spelled out ------------------------------------------------------------------------

  /** The best path has the highest local preference (100 when none is set), among those the shortest
      AS path, among those the lowest path ID. */
  lemma BestCriteria(s: seq<PathEntry<AttrContent>>, e: PathEntry<AttrContent>)
    requires UniqueIDs(s) && e in s
    ensures var b := s[Best(s)];
      var lb := if b.attrs.localPref == 0 then 100 else b.attrs.localPref;
      var le := if e.attrs.localPref == 0 then 100 else e.attrs.localPref;
      && le <= lb
      && (le == lb ==> |b.attrs.asPath| <= |e.attrs.asPath|)
      && (le == lb && |b.attrs.asPath| == |e.attrs.asPath| ==> b.pathID <= e.pathID)
  {
    var i :| 0 <= i < |s| && s[i] == e;
    BestWins(s, i);
  }

  /** The route SelectBest returns: with attributes if any candidate has some, of the highest local
      preference (100 when none is set), among those with the shortest AS path, among those with the
      lowest path ID, and the first of its kind; the first candidate of all if none has attributes. */
  lemma SelectedCriteria(rs: seq<Route<Option<AttrContent>>>, i: nat, j: nat)
    requires Selected(rs, i) && j < |rs|
    ensures rs[i].attributes.None? ==> rs[j].attributes.None? && i <= j
    ensures rs[i].attributes.Some? && rs[j].attributes.Some? ==>
      var b, c := rs[i].attributes.value, rs[j].attributes.value;
      var lb := if b.localPref == 0 then 100 else b.localPref;
      var lc := if c.localPref == 0 then 100 else c.localPref;
      && lc <= lb
      && (lc == lb ==> |b.asPath| <= |c.asPath|)
      && (lc == lb && |b.asPath| == |c.asPath| ==> rs[i].pathID <= rs[j].pathID)
      && (lc == lb && |b.asPath| == |c.asPath| && rs[i].pathID == rs[j].pathID ==> i <= j)
  {
    Unbeaten(rs, i, j);
  }

  // ---- Agreement of the two selections ----------------------------------------------------------

  /** The routes reported for the paths of one prefix. */
  function ToRoutes<A>(p: Prefix, s: seq<PathEntry<A>>): (rs: seq<Route<A>>)
    ensures |rs| == |s|
  {
    seq(|s|, i requires 0 <= i < |s| => Route(p, s[i].attrs, s[i].pathID, s[i].stale))
  }

  function SomeOf(c: AttrContent): Option<AttrContent> { Some(c) }

  /** Selecting over all paths of a prefix picks the node's own best path. */
  lemma SelectionsAgree(p: Prefix, s: seq<PathEntry<AttrContent>>, i: nat)
    requires s != []
    ensures Selected(MapRoutes(SomeOf, ToRoutes(p, s)), i) <==> i == Best(s)
  {
    var rs := MapRoutes(SomeOf, ToRoutes(p, s));
    forall j, n | 0 <= j < |s| && 0 <= n < |s| ensures Beats(rs[j], rs[n]) <==> BetterEntry(s[j], s[n]) {
    }
    BestOfBeats(s, |s|);
    assert Selected(rs, Best(s));
    if Selected(rs, i) { SelectedUnique(rs, i, Best(s)); }
  }
}
