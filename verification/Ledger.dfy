/** The announcement ledger: a consumer that replays the reported new prefixes as additions and the
    reported removed prefixes as removals always holds exactly the stored prefixes. */
module Ledger {
  import opened Addressing
  import opened Attributes
  import opened Enumeration
  import opened PathSeq
  import opened Reference
  import opened RibModel
  import opened Sums
  import opened Sweeps

  datatype Update =
    | InsertBatch(routes: seq<Announcement>)
    | DeleteBatch(paths: seq<Withdrawal>)
    | MarkStale
    | FlushStale

  function After(f: Family, m: Store, u: Update): Store
  {
    match u
    case InsertBatch(rs) => InsertRoutes(f, m, rs)
    case DeleteBatch(ws) => DeleteRoutes(f, m, ws)
    case MarkStale => MarkAllStale(m)
    case FlushStale => DropStale(m)
  }

  function AfterAll(f: Family, m: Store, us: seq<Update>): Store
  {
    if us == [] then m else After(f, AfterAll(f, m, us[..|us| - 1]), us[|us| - 1])
  }

  /** A reported prefix with its host bits cleared. */
  function Clean(p: Prefix): Prefix
  {
    if 0 <= p.bits <= 8 * p.addr.family.Octets() then MaskedPrefix(p) else p
  }

  /** Replays additions; fails on adding what is present. */
  function AddAll(l: set<Prefix>, ps: seq<Prefix>): Option<set<Prefix>>
  {
    if ps == [] then Some(l)
    else
      var r := AddAll(l, ps[..|ps| - 1]);
      var p := Clean(ps[|ps| - 1]);
      if r.Some? && p !in r.value then Some(r.value + {p}) else None
  }

  /** Replays removals; fails on removing what is absent. */
  function RemoveAll(l: set<Prefix>, ps: seq<Prefix>): Option<set<Prefix>>
  {
    if ps == [] then Some(l)
    else
      var r := RemoveAll(l, ps[..|ps| - 1]);
      var p := Clean(ps[|ps| - 1]);
      if r.Some? && p in r.value then Some(r.value - {p}) else None
  }

  ghost function Replay(f: Family, m: Store, u: Update, l: set<Prefix>): Option<set<Prefix>>
  {
    match u
    case InsertBatch(rs) => AddAll(l, NewPrefixes(f, m, rs))
    case DeleteBatch(ws) => RemoveAll(l, RemovedPrefixes(f, m, ws))
    case MarkStale => Some(l)
    case FlushStale => RemoveAll(l, FlushedPrefixes(f, m))
  }

  ghost function ReplayAll(f: Family, m: Store, us: seq<Update>, l: set<Prefix>): Option<set<Prefix>>
  {
    if us == [] then Some(l)
    else
      var n := |us| - 1;
      var r := ReplayAll(f, m, us[..n], l);
      if r.Some? then Replay(f, AfterAll(f, m, us[..n]), us[n], r.value) else None
  }

  ghost function Prefixes(f: Family, s: set<Key>): set<Prefix>
  {
    set k | k in s && Depth(k) <= f.MaxLen() :: PrefixOf(f, k)
  }

  /** The prefixes a RIB stores, as it reports them. */
  ghost function StoredPrefixes(f: Family, m: Store): set<Prefix>
  {
    Prefixes(f, m.Keys)
  }

  lemma OnePrefixPerKey(f: Family, k: Key, l: Key)
    requires Depth(k) <= f.MaxLen() && Depth(l) <= f.MaxLen() && PrefixOf(f, k) == PrefixOf(f, l)
    ensures k == l
  {
    PrefixRoundTrip(f, k, PrefixOf(f, k));
    PrefixRoundTrip(f, l, PrefixOf(f, l));
  }

  lemma AddKey(f: Family, s: set<Key>, k: Key)
    requires Depth(k) <= f.MaxLen() && k !in s
    ensures PrefixOf(f, k) !in Prefixes(f, s) && Prefixes(f, s + {k}) == Prefixes(f, s) + {PrefixOf(f, k)}
  {
    forall l | l in s && Depth(l) <= f.MaxLen() ensures PrefixOf(f, l) != PrefixOf(f, k) {
      if PrefixOf(f, l) == PrefixOf(f, k) { OnePrefixPerKey(f, k, l); }
    }
  }

  lemma RemoveKey(f: Family, s: set<Key>, k: Key)
    requires Depth(k) <= f.MaxLen() && k in s
    ensures PrefixOf(f, k) in Prefixes(f, s) && Prefixes(f, s - {k}) == Prefixes(f, s) - {PrefixOf(f, k)}
  {
    AddKey(f, s - {k}, k);
    assert s - {k} + {k} == s;
  }

  lemma CleanIsStored(f: Family, p: Prefix)
    requires Concerns(f, p)
    ensures Clean(p) == PrefixOf(f, KeyOfPrefix(p))
  {
    PrefixRoundTrip(f, KeyOfPrefix(p), p);
  }

  lemma InsertKeys(f: Family, m: Store, r: Announcement)
    ensures InsertRoute(f, m, r).Keys == if Accepts(f, r.prefix) then m.Keys + {KeyOfPrefix(r.prefix)} else m.Keys
  {
  }

  lemma {:induction false} InsertsReplay(f: Family, m: Store, rs: seq<Announcement>)
    ensures AddAll(StoredPrefixes(f, m), NewPrefixes(f, m, rs)) == Some(StoredPrefixes(f, InsertRoutes(f, m, rs)))
  {
    if rs != [] {
      var n := |rs| - 1;
      var before, r := InsertRoutes(f, m, rs[..n]), rs[n];
      InsertsReplay(f, m, rs[..n]);
      InsertKeys(f, before, r);
      var reported := NewPrefixes(f, m, rs[..n]);
      if Announces(f, before, r) {
        assert (reported + [r.prefix])[..|reported|] == reported;
        CleanIsStored(f, r.prefix);
        AddKey(f, before.Keys, KeyOfPrefix(r.prefix));
      } else {
        assert reported + [] == reported;
        assert InsertRoute(f, before, r).Keys == before.Keys;
      }
    }
  }

  lemma DeleteKeys(f: Family, m: Store, w: Withdrawal)
    ensures DeleteRoute(f, m, w).Keys == if Withdraws(f, m, w) then m.Keys - {KeyOfPrefix(w.prefix)} else m.Keys
  {
    if Concerns(f, w.prefix) {
      var k := KeyOfPrefix(w.prefix);
      DeletePathCount(At(m, k), w.pathID);
    }
  }

  lemma {:induction false} DeletesReplay(f: Family, m: Store, ws: seq<Withdrawal>)
    requires forall k :: k in m ==> m[k] != []
    ensures RemoveAll(StoredPrefixes(f, m), RemovedPrefixes(f, m, ws)) == Some(StoredPrefixes(f, DeleteRoutes(f, m,
        ws)))
    ensures forall k :: k in DeleteRoutes(f, m, ws) ==> DeleteRoutes(f, m, ws)[k] != []
  {
    if ws != [] {
      var n := |ws| - 1;
      var before, w := DeleteRoutes(f, m, ws[..n]), ws[n];
      DeletesReplay(f, m, ws[..n]);
      NoneEmptied(f, before, w);
      DeleteKeys(f, before, w);
      var reported := RemovedPrefixes(f, m, ws[..n]);
      hide DeleteRoute, Withdraws, Prefixes, KeyOf, Clean;
      if Withdraws(f, before, w) {
        assert (reported + [w.prefix])[..|reported|] == reported;
        WithdrawsKey(f, before, w);
        CleanIsStored(f, w.prefix);
        RemoveKey(f, before.Keys, KeyOfPrefix(w.prefix));
      } else {
        assert reported + [] == reported;
      }
    }
  }

  lemma WithdrawsKey(f: Family, m: Store, w: Withdrawal)
    requires Withdraws(f, m, w)
    ensures Concerns(f, w.prefix) && KeyOfPrefix(w.prefix) in m.Keys
    ensures Depth(KeyOfPrefix(w.prefix)) <= f.MaxLen()
  {
  }

  lemma NoneEmptied(f: Family, m: Store, w: Withdrawal)
    requires forall k :: k in m ==> m[k] != []
    ensures forall k :: k in DeleteRoute(f, m, w) ==> DeleteRoute(f, m, w)[k] != []
  {
    hide KeyOf, DeletePath;
  }

  lemma CleanPrefix(f: Family, k: Key)
    requires Depth(k) <= f.MaxLen()
    ensures Clean(PrefixOf(f, k)) == PrefixOf(f, k)
  {
    CleanIsStored(f, PrefixOf(f, k));
    PrefixRoundTrip(f, k, PrefixOf(f, k));
  }

  ghost function Listed(l: seq<Key>): set<Key>
  {
    set x | x in l
  }

  lemma ListedLast(f: Family, s: set<Key>, l: seq<Key>)
    requires l != [] && (forall x :: x in l ==> x in s && Depth(x) <= f.MaxLen())
    requires Distinct(l)
    ensures var n := |l| - 1;
      && (forall x :: x in l[..n] ==> x in s && Depth(x) <= f.MaxLen())
      && l[n] in s - Listed(l[..n]) && Depth(l[n]) <= f.MaxLen()
      && s - Listed(l[..n]) - {l[n]} == s - Listed(l)
      && ToPrefixes(f, l)[..n] == ToPrefixes(f, l[..n]) && ToPrefixes(f, l)[n] == PrefixOf(f, l[n])
  {
    var n := |l| - 1;
    assert l[n] in l;
    assert l == l[..n] + [l[n]];
    assert l[n] !in l[..n];
  }

  /** Removing a duplicate-free listing of members removes exactly those members. */
  lemma {:induction false} ListingReplay(f: Family, s: set<Key>, l: seq<Key>)
    requires forall x :: x in l ==> x in s && Depth(x) <= f.MaxLen()
    requires Distinct(l)
    ensures RemoveAll(Prefixes(f, s), ToPrefixes(f, l)) == Some(Prefixes(f, s - Listed(l)))
  {
    hide Prefixes, PrefixOf, Clean, KeyOf, MaskedPrefix, ToPrefixes;
    if l == [] {
      assert s - Listed(l) == s;
    } else {
      var n := |l| - 1;
      ListedLast(f, s, l);
      ListingReplay(f, s, l[..n]);
      RemoveKey(f, s - Listed(l[..n]), l[n]);
      CleanPrefix(f, l[n]);
    }
  }

  lemma FlushReplay(f: Family, m: Store)
    requires Admitted(f, m)
    ensures RemoveAll(StoredPrefixes(f, m), FlushedPrefixes(f, m)) == Some(StoredPrefixes(f, DropStale(m)))
  {
    var l := PostOrderRoots(f, AllStale(m), f.RootSize());
    forall x ensures x in l <==> x in AllStale(m) {
      PostOrderRootsMembers(f, AllStale(m), f.RootSize(), x);
      OctetSlot(f, OctetOfKey(x));
    }
    PostOrderRootsDistinct(f, AllStale(m), f.RootSize());
    hide PostOrderRoots;
    ListingReplay(f, m.Keys, l);
    assert m.Keys - Listed(l) == DropStale(m).Keys;
  }

  lemma {:induction false} InsertsAdmitted(f: Family, m: Store, rs: seq<Announcement>)
    requires WellFormed(m) && Admitted(f, m)
    ensures WellFormed(InsertRoutes(f, m, rs)) && Admitted(f, InsertRoutes(f, m, rs))
  {
    if rs != [] {
      var n := |rs| - 1;
      InsertsAdmitted(f, m, rs[..n]);
      var r := rs[n];
      if Accepts(f, r.prefix) {
        EditsKeepWellFormed(InsertRoutes(f, m, rs[..n]), KeyOfPrefix(r.prefix), r.pathID, r.attributes);
      }
    }
  }

  lemma {:induction false} DeletesAdmitted(f: Family, m: Store, ws: seq<Withdrawal>)
    requires WellFormed(m) && Admitted(f, m)
    ensures WellFormed(DeleteRoutes(f, m, ws)) && Admitted(f, DeleteRoutes(f, m, ws))
  {
    if ws != [] {
      var n := |ws| - 1;
      DeletesAdmitted(f, m, ws[..n]);
      var w := ws[n];
      if Concerns(f, w.prefix) {
        EditsKeepWellFormed(DeleteRoutes(f, m, ws[..n]), KeyOfPrefix(w.prefix), w.pathID, EMPTY);
      }
    }
  }

  lemma AfterAdmitted(f: Family, m: Store, u: Update)
    requires WellFormed(m) && Admitted(f, m)
    ensures WellFormed(After(f, m, u)) && Admitted(f, After(f, m, u))
  {
    match u
    case InsertBatch(rs) => InsertsAdmitted(f, m, rs);
    case DeleteBatch(ws) => DeletesAdmitted(f, m, ws);
    case MarkStale => EditsKeepWellFormed(m, Root(0), 0, EMPTY);
    case FlushStale => EditsKeepWellFormed(m, Root(0), 0, EMPTY);
  }

  /** One update: the replay never adds a present prefix, never removes an absent one, and ends at
      the stored prefixes. */
  lemma UpdateReplay(f: Family, m: Store, u: Update)
    requires WellFormed(m) && Admitted(f, m)
    ensures Replay(f, m, u, StoredPrefixes(f, m)) == Some(StoredPrefixes(f, After(f, m, u)))
  {
    match u
    case InsertBatch(rs) => InsertsReplay(f, m, rs);
    case DeleteBatch(ws) => DeletesReplay(f, m, ws);
    case MarkStale => assert MarkAllStale(m).Keys == m.Keys;
    case FlushStale => FlushReplay(f, m);
  }

  /** The ledger theorem, over every run. */
  lemma {:induction false} LedgerFollows(f: Family, m: Store, us: seq<Update>)
    requires WellFormed(m) && Admitted(f, m)
    ensures WellFormed(AfterAll(f, m, us)) && Admitted(f, AfterAll(f, m, us))
    ensures ReplayAll(f, m, us, StoredPrefixes(f, m)) == Some(StoredPrefixes(f, AfterAll(f, m, us)))
  {
    if us != [] {
      var n := |us| - 1;
      LedgerFollows(f, m, us[..n]);
      UpdateReplay(f, AfterAll(f, m, us[..n]), us[n]);
      AfterAdmitted(f, AfterAll(f, m, us[..n]), us[n]);
    }
  }

  /** Reported prefixes come back as the caller wrote them. The literal report of a new prefix names
      a stored prefix exactly when its host bits are clear. */
  lemma LiteralReport(f: Family, m: Store, r: Announcement)
    requires Announces(f, m, r)
    ensures NewPrefixes(f, m, [r]) == [r.prefix]
    ensures r.prefix in StoredPrefixes(f, InsertRoute(f, m, r)) <==> Clean(r.prefix) == r.prefix
  {
    var p, k := r.prefix, KeyOfPrefix(r.prefix);
    assert [r][..0] == [];
    CleanIsStored(f, p);
    var after := InsertRoute(f, m, r);
    assert k in after.Keys;
    if p in StoredPrefixes(f, after) {
      var l :| l in after.Keys && Depth(l) <= f.MaxLen() && PrefixOf(f, l) == p;
      PrefixRoundTrip(f, l, p);
    }
  }
}
