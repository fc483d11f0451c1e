/** What the longest-prefix walk knows on its way down. */
module Walks {
  import opened Addressing
  import opened Attributes
  import opened Nodes
  import opened PathSeq
  import opened Reference
  import opened RibModel
  import opened Selection
  import opened Tries

  /** A RIB's content with attributes in place of pointers. */
  function Contents(m: Content): Store
  {
    View(ContentOf, m)
  }

  function Outward(r: Option<Route<RouteAttributes>>): Option<Announcement>
  {
    if r.None? then None else Some(MapRoute(ContentOf, r.value))
  }

  /** `node` at length `len` is the deepest stored position among the first `d` bits of the walk. */
  ghost predicate DeepestSoFar(t: Trie, m: Content, a: seq<bv8>, d: nat, node: Node?, len: nat)
  {
    && d <= 8 * |a| && len == MatchLen(m, a, d)
    && (if len == 0 then node == null else KeyOf(a, len) in t && node == t[KeyOf(a, len)])
  }

  /** The walk reaches depth `d`, where the node holds a path or does not. */
  lemma Arrive(t: Trie, m: Content, a: seq<bv8>, d: nat, node: Node?, len: nat)
    requires Stored(t, m) && 8 <= d <= 8 * |a| && KeyOf(a, d) in t
    requires d == 8 || DeepestSoFar(t, m, a, d - 1, node, len)
    ensures var n := t[KeyOf(a, d)];
      && n.SlotsOK() && n.Paths() == At(m, KeyOf(a, d))
      && (n.hasPath <==> n.Paths() != []) && (n.hasPath ==> DeepestSoFar(t, m, a, d, n, d))
      && (!n.hasPath ==> if d == 8 then DeepestSoFar(t, m, a, d, null, 0) else DeepestSoFar(t, m, a, d, node, len))
  {
    hide KeyOf, Node.SlotsOK;
    NodeHolds(t, m, KeyOf(a, d));
    hide Stored;
  }

  /** Where the walk ends nothing further down can match. */
  lemma {:induction false} Leave(t: Trie, m: Content, a: seq<bv8>, d: nat, hi: nat)
    requires Linked(t) && Stored(t, m) && 7 <= d <= hi <= 8 * |a| && (d < hi ==> KeyOf(a, d + 1) !in t)
    ensures MatchLen(m, a, hi) == MatchLen(m, a, d)
  {
    hide KeyOf, Linked, Stored;
    if d < hi {
      NothingBelow(t, a, d + 1, hi);
      StoredInside(t, m);
      Leave(t, m, a, d, hi - 1);
    }
  }

  lemma {:induction false} MatchView<A, B>(f: A -> B, m: PathMap<A>, a: seq<bv8>, hi: nat)
    requires hi <= 8 * |a|
    ensures MatchLen(View(f, m), a, hi) == MatchLen(m, a, hi)
  {
    if hi >= 8 && KeyOf(a, hi) !in m { MatchView(f, m, a, hi - 1); }
  }

  /** The route assembled from a node's best path is the one the reference reports. */
  lemma Reported(m: Content, k: Key, p: Prefix, best: RouteAttributes, id: uint32, stale: bool)
    requires k in m && m[k] != [] && UniqueIDs(m[k]) && 0 <= p.bits <= 8 * p.addr.family.Octets()
    requires var b := m[k][Best(MapAttrs(ContentOf, m[k]))]; best == b.attrs && id == b.pathID
    requires var i := IndexOf(m[k], id); stale <==> i < |m[k]| && m[k][i].stale
    ensures Outward(Some(Route(MaskedPrefix(p), best, id, stale))) == BestRoute(p, Contents(m)[k])
  {
    hide Best, Masked, RouteAttributes.Content;
    IndexUnique(m[k], Best(MapAttrs(ContentOf, m[k])));
  }

  lemma StoredIsWellFormed(t: Trie, m: Content)
    requires Stored(t, m)
    ensures WellFormed(m)
  {
    forall k | k in m ensures m[k] != [] && UniqueIDs(m[k]) {
      NodeHolds(t, m, k);
      UniqueSlots(t[k]);
    }
  }

  lemma UniqueSlots(n: Node)
    requires n.SlotsOK()
    ensures UniqueIDs(n.Paths())
  {
  }

  /** The routes of a node, attributes read as content. */
  lemma RoutesOut(p: Prefix, s: seq<Entry>)
    ensures MapRoutes(ContentOf, ToRoutes(p, s)) == ToRoutes(p, MapAttrs(ContentOf, s))
  {
  }

  // ---- Updates as callers see them ------------------------------------------------------------------------

  /** A caller's route; absent attributes stand for the empty set of attributes. */
  function Announced(r: Route<RouteAttributes?>): Announcement
  {
    Route(r.prefix, if r.attributes == null then EMPTY else r.attributes.Content(), r.pathID, r.stale)
  }

  function Announcements(rs: seq<Route<RouteAttributes?>>): (r: seq<Announcement>)
    ensures |r| == |rs| && forall i :: 0 <= i < |rs| ==> r[i] == Announced(rs[i])
  {
    seq(|rs|, i requires 0 <= i < |rs| => Announced(rs[i]))
  }

  /** Room for one more reference beside the stored ones and `n` others, if the prefix takes one at all. */
  ghost predicate Room(f: Family, m: Store, n: nat, p: Prefix)
  {
    Accepts(f, p) ==> |Slots(m)| + n + 1 < TWO_32
  }

  lemma RoomFor(f: Family, m: Content, others: multiset<RouteAttributes>, p: Prefix)
    ensures Room(f, Contents(m), |others|, p) ==> Accepts(f, p) ==> |Occurrences(m) + others| + 1 < TWO_32
  {
    CountsSeen(m);
  }

  /** What an insert into the pointer map means for the map of content. */
  lemma InsertSeen(f: Family, m: Content, n: Content, r: Route<RouteAttributes?>, p: RouteAttributes?)
    requires if Accepts(f, r.prefix)
      then p != null && p.Content() == (if r.attributes == null then EMPTY else r.attributes.Content()) &&
          n == Insert(m, KeyOfPrefix(r.prefix), r.pathID, p)
      else n == m
    ensures Contents(n) == InsertRoute(f, Contents(m), Announced(r))
    ensures Announces(f, Contents(m), Announced(r)) <==> Accepts(f, r.prefix) && KeyOfPrefix(r.prefix) !in m
  {
    hide KeyOf, Insert, Occurrences;
    if Accepts(f, r.prefix) {
      var k := KeyOfPrefix(r.prefix);
      ViewEdits(ContentOf, m, k, r.pathID, p);
    }
  }

  lemma DeleteSeen(f: Family, m: Content, n: Content, w: Withdrawal)
    requires w.prefix.addr.family == f
    requires if InRange(f, w.prefix.bits) then n == RibModel.Delete(m, KeyOfPrefix(w.prefix), w.pathID) else n == m
    ensures Contents(n) == DeleteRoute(f, Contents(m), w)
    ensures Withdraws(f, Contents(m), w) <==>
      InRange(f, w.prefix.bits) && KeyOfPrefix(w.prefix) in m && KeyOfPrefix(w.prefix) !in n
  {
    hide KeyOf, RibModel.Delete, Occurrences;
    if InRange(f, w.prefix.bits) {
      var k := KeyOfPrefix(w.prefix);
      DeleteViewed(m, k, w.pathID);
    }
  }

  lemma DeleteViewed(m: Content, k: Key, id: uint32)
    ensures Contents(RibModel.Delete(m, k, id)) == RibModel.Delete(Contents(m), k, id)
  {
    MapIndex(ContentOf, At(m, k), id);
    if IndexOf(At(m, k), id) < |At(m, k)| { MapWithout(ContentOf, At(m, k), IndexOf(At(m, k), id)); }
    ViewWith(ContentOf, m, k, PathSeq.DeletePath(At(m, k), id));
  }

  /** Routes of the other family change nothing. */
  lemma NotMine(f: Family, m: Store, r: Route<RouteAttributes?>)
    ensures r.prefix.addr.family != f ==> InsertRoute(f, m, Announced(r)) == m && !Announces(f, m, Announced(r))
  {
  }

  lemma NotConcerned(f: Family, m: Store, w: Withdrawal)
    ensures w.prefix.addr.family != f ==> DeleteRoute(f, m, w) == m && !Withdraws(f, m, w)
  {
  }

  lemma BatchStart(f: Family, m: Store, rs: seq<Announcement>, ws: seq<Withdrawal>)
    ensures InsertRoutes(f, m, rs[..0]) == m && NewPrefixes(f, m, rs[..0]) == []
    ensures DeleteRoutes(f, m, ws[..0]) == m && RemovedPrefixes(f, m, ws[..0]) == []
  {
  }

  lemma InsertNext(f: Family, m: Store, routes: seq<Route<RouteAttributes?>>, i: nat)
    requires i < |routes|
    ensures var rs := Announcements(routes); var before, r := InsertRoutes(f, m, rs[..i]), Announced(routes[i]);
      && InsertRoutes(f, m, rs[..i + 1]) == InsertRoute(f, before, r)
      && NewPrefixes(f, m, rs[..i + 1]) == NewPrefixes(f, m, rs[..i]) + (if Announces(f, before, r)
          then [routes[i].prefix] else [])
      && (!Announces(f, before, r) ==> NewPrefixes(f, m, rs[..i + 1]) == NewPrefixes(f, m, rs[..i]))
  {
    var rs := Announcements(routes);
    assert rs[..i + 1][..i] == rs[..i];
    hide InsertRoute, Announces;
  }

  lemma DeleteNext(f: Family, m: Store, ws: seq<Withdrawal>, i: nat)
    requires i < |ws|
    ensures var before := DeleteRoutes(f, m, ws[..i]);
      && DeleteRoutes(f, m, ws[..i + 1]) == DeleteRoute(f, before, ws[i])
      && RemovedPrefixes(f, m, ws[..i + 1]) == RemovedPrefixes(f, m, ws[..i]) + (if Withdraws(f, before, ws[i])
          then [ws[i].prefix] else [])
      && (!Withdraws(f, before, ws[i]) ==> RemovedPrefixes(f, m, ws[..i + 1]) == RemovedPrefixes(f, m, ws[..i]))
  {
    assert ws[..i + 1][..i] == ws[..i];
    hide DeleteRoute, Withdraws;
  }

  lemma CountsSeen(m: Content)
    ensures |Contents(m)| == |m| && |Slots(Contents(m))| == |Occurrences(m)|
    ensures forall len :: |OfLength(Contents(m), len)| == |OfLength(m, len)|
  {
    var v := Contents(m);
    assert v.Keys == m.Keys;
    assert |v| == |v.Keys| && |m| == |m.Keys|;
    PathTotal(m);
    assert Slots(v) == Slots(m);
    forall len ensures OfLength(v, len) == OfLength(m, len) {
    }
  }
}
