/** What callers of a RIB see: a map from prefix to paths, and the results of each operation on it.
    Attributes are content here; there is no table, no trie and no counter. */
module Reference {
  import opened Addressing
  import opened Attributes
  import opened Enumeration
  import opened PathSeq
  import opened RibModel
  import opened Selection
  import opened Sweeps

  type Store = PathMap<AttrContent>
  type Announcement = Route<AttrContent>

  datatype Withdrawal = Withdrawal(prefix: Prefix, pathID: uint32)

  // ---- Updates ------------------------------------------------------------------------------------

  function InsertRoute(f: Family, m: Store, r: Announcement): Store
  {
    if Accepts(f, r.prefix) then Insert(m, KeyOfPrefix(r.prefix), r.pathID, r.attributes) else m
  }

  /** Inserting this route takes its prefix from no path to one. */
  predicate Announces(f: Family, m: Store, r: Announcement)
  {
    Accepts(f, r.prefix) && KeyOfPrefix(r.prefix) !in m
  }

  /** Prefixes a delete can concern at all. */
  predicate Concerns(f: Family, p: Prefix)
  {
    p.addr.family == f && InRange(f, p.bits)
  }

  function DeleteRoute(f: Family, m: Store, w: Withdrawal): Store
  {
    if Concerns(f, w.prefix) then Delete(m, KeyOfPrefix(w.prefix), w.pathID) else m
  }

  /** Deleting this path takes its prefix from one path to none. */
  predicate Withdraws(f: Family, m: Store, w: Withdrawal)
  {
    Concerns(f, w.prefix) && KeyOfPrefix(w.prefix) in m && KeyOfPrefix(w.prefix) !in DeleteRoute(f, m, w)
  }

  function InsertRoutes(f: Family, m: Store, rs: seq<Announcement>): Store
  {
    if rs == [] then m else InsertRoute(f, InsertRoutes(f, m, rs[..|rs| - 1]), rs[|rs| - 1])
  }

  function NewPrefixes(f: Family, m: Store, rs: seq<Announcement>): seq<Prefix>
  {
    if rs == [] then []
    else
      var n := |rs| - 1;
      NewPrefixes(f, m, rs[..n]) + (if Announces(f, InsertRoutes(f, m, rs[..n]), rs[n]) then [rs[n].prefix] else [])
  }

  function DeleteRoutes(f: Family, m: Store, ws: seq<Withdrawal>): Store
  {
    if ws == [] then m else DeleteRoute(f, DeleteRoutes(f, m, ws[..|ws| - 1]), ws[|ws| - 1])
  }

  function RemovedPrefixes(f: Family, m: Store, ws: seq<Withdrawal>): seq<Prefix>
  {
    if ws == [] then []
    else
      var n := |ws| - 1;
      RemovedPrefixes(f, m, ws[..n]) + (if Withdraws(f, DeleteRoutes(f, m, ws[..n]), ws[n]) then [ws[n].prefix] else [])
  }

  /** The prefixes a stale flush reports. */
  ghost function FlushedPrefixes(f: Family, m: Store): seq<Prefix>
  {
    ToPrefixes(f, PostOrderRoots(f, AllStale(m), f.RootSize()))
  }

  // ---- Queries --------------------------------------------------------------------------------------

  /** The greatest stored length not above `hi` on the way to address `a`, or 0. */
  function MatchLen<A>(m: PathMap<A>, a: seq<bv8>, hi: nat): (len: nat)
    requires hi <= 8 * |a|
    ensures len <= hi && (len != 0 ==> 8 <= len && KeyOf(a, len) in m)
    ensures forall l :: 8 <= l <= hi && KeyOf(a, l) in m ==> l <= len
  {
    if hi < 8 then 0 else if KeyOf(a, hi) in m then hi else MatchLen(m, a, hi - 1)
  }

  /** The best path of a prefix as the route reported for it. */
  function BestRoute(p: Prefix, s: seq<PathEntry<AttrContent>>): Option<Announcement>
    requires 0 <= p.bits <= 8 * p.addr.family.Octets()
  {
    if s == [] then None
    else
      var b := s[Best(s)];
      Some(Route(MaskedPrefix(p), b.attrs, b.pathID, b.stale))
  }

  function Search(f: Family, m: Store, ip: Addr): Option<Announcement>
  {
    if ip.family != f then None
    else
      var len := MatchLen(m, ip.bytes, f.MaxLen());
      if len == 0 then None else BestRoute(Prefix(ip, len), m[KeyOf(ip.bytes, len)])
  }

  function AllPathsSearch(f: Family, m: Store, ip: Addr): seq<Announcement>
  {
    if ip.family != f then []
    else
      var len := MatchLen(m, ip.bytes, f.MaxLen());
      if len == 0 then [] else ToRoutes(MaskedPrefix(Prefix(ip, len)), m[KeyOf(ip.bytes, len)])
  }

  function Lookup(f: Family, m: Store, p: Prefix): Option<Announcement>
  {
    if Concerns(f, p) then BestRoute(p, At(m, KeyOfPrefix(p))) else None
  }

  function AllPaths(f: Family, m: Store, p: Prefix): seq<Announcement>
  {
    if Concerns(f, p) then ToRoutes(MaskedPrefix(p), At(m, KeyOfPrefix(p))) else []
  }

  ghost function AllPrefixes(f: Family, m: Store): seq<Prefix>
  {
    ToPrefixes(f, PreOrderRoots(f, m.Keys, f.ScanLimit()))
  }

  /** The routes of one prefix that satisfy a query, in stored order. */
  ghost function MatchingAt(p: Prefix, s: seq<PathEntry<AttrContent>>, q: Query): seq<Announcement>
  {
    if s == [] then []
    else
      MatchingAt(p, s[..|s| - 1], q) +
      (var e := s[|s| - 1]; if q.Holds(e.attrs) then [Route(p, e.attrs, e.pathID, e.stale)] else [])
  }

  /** The naive answer: filter every path of every prefix, prefixes in the given order. */
  ghost function Matching(f: Family, m: Store, q: Query, l: seq<Key>): seq<Announcement>
    requires forall x :: x in l ==> Depth(x) <= f.MaxLen()
  {
    if l == [] then []
    else
      var n := |l| - 1;
      assert l[n] in l;
      Matching(f, m, q, l[..n]) + MatchingAt(PrefixOf(f, l[n]), At(m, l[n]), q)
  }

  ghost function MatchingAll(f: Family, m: Store, q: Query): seq<Announcement>
  {
    Matching(f, m, q, PreOrderRoots(f, m.Keys, f.ScanLimit()))
  }

  // ---- What the queries mean ------------------------------------------------------------------------

  ghost predicate Contains(p: Prefix, ip: Addr)
  {
    p.addr.family == ip.family && 0 <= p.bits <= 8 * ip.family.Octets() &&
    Masked(p.addr.bytes, p.bits) == Masked(ip.bytes, p.bits)
  }

  /** A prefix as the RIB reports it: in range, host bits clear, stored. */
  ghost predicate StoredPrefix(f: Family, m: Store, p: Prefix)
  {
    Concerns(f, p) && MaskedPrefix(p) == p && KeyOfPrefix(p) in m
  }

  /** Every stored position has depth and first octet that insert admits. */
  ghost predicate Admitted(f: Family, m: Store)
  {
    forall k :: k in m ==> Depth(k) <= f.MaxLen() && f.Admits(OctetOfKey(k))
  }

  lemma MaskedTwice(a: seq<bv8>, len: nat)
    requires 8 <= len <= 8 * |a|
    ensures Masked(Masked(a, len), len) == Masked(a, len)
    ensures KeyOf(Masked(a, len), len) == KeyOf(a, len)
  {
    AddrOfKeyOf(a, len);
    KeyOfAddrOf(KeyOf(a, len), |a|);
    AddrOfKeyOf(Masked(a, len), len);
  }

  /** A stored prefix contains an address exactly when the walk for the address passes its node. */
  lemma ContainsIff(f: Family, m: Store, p: Prefix, ip: Addr)
    requires StoredPrefix(f, m, p) && ip.family == f
    ensures Contains(p, ip) <==> KeyOf(ip.bytes, p.bits) == KeyOfPrefix(p)
  {
    SameKey(p.addr.bytes, ip.bytes, p.bits);
  }

  /** The stored prefix on the walk of an address at a stored length. */
  lemma StoredOnWalk(f: Family, m: Store, ip: Addr, len: nat)
    requires ip.family == f && InRange(f, len) && KeyOf(ip.bytes, len) in m
    ensures var p := MaskedPrefix(Prefix(ip, len)); StoredPrefix(f, m, p) && Contains(p, ip)
  {
    MaskedTwice(ip.bytes, len);
  }

  /** A search comes back empty exactly when no stored prefix contains the address. */
  lemma SearchMisses(f: Family, m: Store, ip: Addr)
    requires WellFormed(m) && Admitted(f, m) && ip.family == f
    ensures Search(f, m, ip).None? <==> forall p :: StoredPrefix(f, m, p) ==> !Contains(p, ip)
  {
    hide KeyOf, Masked, WellFormed, Best, Optimum;
    var len := MatchLen(m, ip.bytes, f.MaxLen());
    forall p | StoredPrefix(f, m, p) && Contains(p, ip) ensures p.bits <= len {
      ContainsIff(f, m, p, ip);
    }
    if len != 0 {
      StoredOnWalk(f, m, ip, len);
      MaskedTwice(ip.bytes, len);
      BestRouteIsOptimum(m, KeyOf(ip.bytes, len), Prefix(ip, len));
    }
  }

  /** Longest prefix match: a hit names the longest stored prefix containing the address, with that
      prefix's best path and its stale flag. */
  lemma LongestPrefixMatch(f: Family, m: Store, ip: Addr)
    requires WellFormed(m) && Admitted(f, m) && ip.family == f
    ensures var r := Search(f, m, ip);
      r.Some? ==>
        && StoredPrefix(f, m, r.value.prefix) && Contains(r.value.prefix, ip)
        && (forall p :: StoredPrefix(f, m, p) && Contains(p, ip) ==> p.bits <= r.value.prefix.bits)
        && Optimum(m[KeyOfPrefix(r.value.prefix)], r.value)
  {
    hide KeyOf, Masked, Optimum, WellFormed, Best;
    var len := MatchLen(m, ip.bytes, f.MaxLen());
    if len != 0 {
      forall p | StoredPrefix(f, m, p) && Contains(p, ip) ensures p.bits <= len {
        ContainsIff(f, m, p, ip);
      }
      StoredOnWalk(f, m, ip, len);
      MaskedTwice(ip.bytes, len);
      BestRouteIsOptimum(m, KeyOf(ip.bytes, len), Prefix(ip, len));
    }
  }

  /** The route carries the path that beats every other path of the prefix, with its stale flag. */
  ghost predicate Optimum(s: seq<PathEntry<AttrContent>>, r: Announcement)
  {
    exists i: nat :: IsBest(s, i) && PathEntry(r.attributes, r.pathID, r.stale) == s[i]
  }

  lemma BestRouteIsOptimum(m: Store, k: Key, p: Prefix)
    requires WellFormed(m) && k in m && 0 <= p.bits <= 8 * p.addr.family.Octets()
    ensures var r := BestRoute(p, m[k]); r.Some? && Optimum(m[k], r.value) && r.value.prefix == MaskedPrefix(p)
  {
    BestIsOptimum(m[k], Best(m[k]));
  }

  /** Search is the exact lookup at the longest length for which there is one. */
  lemma SearchIsLongestLookup(f: Family, m: Store, ip: Addr)
    requires WellFormed(m) && ip.family == f
    ensures var r := Search(f, m, ip);
      && (r.None? <==> forall l :: InRange(f, l) ==> Lookup(f, m, Prefix(ip, l)).None?)
      && (r.Some? ==> InRange(f, r.value.prefix.bits) && r == Lookup(f, m, Prefix(ip, r.value.prefix.bits))
                      && forall l :: InRange(f, l) && Lookup(f, m, Prefix(ip, l)).Some? ==> l <= r.value.prefix.bits)
  {
    var len := MatchLen(m, ip.bytes, f.MaxLen());
    forall l | InRange(f, l) ensures Lookup(f, m, Prefix(ip, l)).Some? <==> KeyOf(ip.bytes, l) in m {
    }
    if len != 0 {
      assert InRange(f, len) && Lookup(f, m, Prefix(ip, len)).Some?;
    }
  }

  /** Search agrees with SelectBest over AllPathsSearch. */
  lemma SearchIsSelectBest(f: Family, m: Store, ip: Addr)
    requires WellFormed(m)
    ensures var rs := AllPathsSearch(f, m, ip); var r := Search(f, m, ip);
      && (rs == [] <==> r.None?)
      && (r.Some? ==> exists i: nat :: Selected(MapRoutes(SomeOf, rs), i) && rs[i] == r.value)
  {
    if ip.family == f {
      var len := MatchLen(m, ip.bytes, f.MaxLen());
      if len != 0 {
        var s := m[KeyOf(ip.bytes, len)];
        SelectionsAgree(MaskedPrefix(Prefix(ip, len)), s, Best(s));
      }
    }
  }

  /** The enumeration is strictly increasing by address, then length, with as many entries as there are
      stored prefixes. */
  lemma EnumerationInOrder(f: Family, m: Store)
    requires Admitted(f, m)
    ensures var l := AllPrefixes(f, m);
      && |l| == |m|
      && (forall i, j :: 0 <= i < j < |l| ==> l[i].addr.family == l[j].addr.family && Before(l[i], l[j]))
  {
    var ks := PreOrderRoots(f, m.Keys, f.ScanLimit());
    PreOrderRootsInOrder(f, m.Keys, f.ScanLimit());
    EveryKeyListed(f, m);
    InOrderCount(f, ks, m.Keys);
  }

  /** The scan reaches every stored position, because insert admits no first octet beyond it. */
  lemma EveryKeyListed(f: Family, m: Store)
    requires Admitted(f, m)
    ensures forall k :: k in PreOrderRoots(f, m.Keys, f.ScanLimit()) <==> k in m.Keys
  {
    forall k ensures k in PreOrderRoots(f, m.Keys, f.ScanLimit()) <==> k in m.Keys {
      PreOrderRootsMembers(f, m.Keys, f.ScanLimit(), k);
      OctetSlot(f, OctetOfKey(k));
    }
  }

  /** The enumeration lists exactly the stored prefixes, in strictly increasing order, once each. */
  lemma EnumerationRoundTrip(f: Family, m: Store)
    requires Admitted(f, m)
    ensures var l := AllPrefixes(f, m);
      && |l| == |m|
      && (forall p :: p in l <==> StoredPrefix(f, m, p))
      && (forall i, j :: 0 <= i < j < |l| ==> l[i].addr.family == l[j].addr.family && Before(l[i], l[j]))
  {
    EnumerationInOrder(f, m);
    EveryKeyListed(f, m);
    var ks := PreOrderRoots(f, m.Keys, f.ScanLimit());
    forall p ensures p in AllPrefixes(f, m) <==> StoredPrefix(f, m, p) {
      ListedIffStored(f, m, ks, p);
    }
  }

  lemma ListedIffStored(f: Family, m: Store, ks: seq<Key>, p: Prefix)
    requires (forall k :: k in ks <==> k in m.Keys) && forall k :: k in ks ==> Depth(k) <= f.MaxLen()
    ensures p in ToPrefixes(f, ks) <==> StoredPrefix(f, m, p)
  {
    if p in ToPrefixes(f, ks) {
      var i :| 0 <= i < |ks| && ToPrefixes(f, ks)[i] == p;
      assert ks[i] in ks;
      PrefixRoundTrip(f, ks[i], p);
    }
    if StoredPrefix(f, m, p) {
      var k := KeyOfPrefix(p);
      PrefixRoundTrip(f, k, p);
      var i :| 0 <= i < |ks| && ks[i] == k;
      assert ToPrefixes(f, ks)[i] == p;
    }
  }
}
