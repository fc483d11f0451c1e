/** Sweeps over part of a RIB, and how a sweep over a subtree is put together from its parts. */
module Sweeps {
  import opened Addressing
  import opened Attributes
  import opened Octets
  import opened PathSeq
  import opened RibModel
  import opened Enumeration
  import opened Sums

  type Region = Key -> bool

  function Below(k: Key): Region { x => Under(k, x) }

  function JustAt(k: Key): Region { x => x == k }

  function FirstRoots(f: Family, n: nat): Region
  {
    x => f.Indexable(OctetOfKey(x)) && f.IndexOf(OctetOfKey(x)) < n
  }

  function Both(p: Region, q: Region): Region { x => p(x) || q(x) }

  function MarkWhere<A>(m: PathMap<A>, p: Region): PathMap<A>
  {
    map k | k in m :: if p(k) then MarkStale(m[k]) else m[k]
  }

  function DropWhere<A>(m: PathMap<A>, p: Region): PathMap<A>
  {
    map k | k in m && (p(k) ==> Fresh(m[k]) != []) :: if p(k) then Fresh(m[k]) else m[k]
  }

  /** Prefixes whose paths are all stale. */
  function AllStale<A>(m: PathMap<A>): set<Key>
  {
    set k | k in m && Fresh(m[k]) == []
  }

  lemma MarkTwice<A>(s: seq<PathEntry<A>>)
    ensures MarkStale(MarkStale(s)) == MarkStale(s)
  {
  }

  lemma FreshTwice<A>(s: seq<PathEntry<A>>)
    ensures Fresh(Fresh(s)) == Fresh(s)
  {
    FreshNothingStale(s);
    FreshNothingStale(Fresh(s));
  }

  // ---- Putting sweeps together --------------------------------------------------------------------

  lemma MarkBoth<A>(m: PathMap<A>, p: Region, q: Region)
    ensures MarkWhere(MarkWhere(m, p), q) == MarkWhere(m, Both(p, q))
  {
    forall k | k in m ensures MarkStale(MarkStale(m[k])) == MarkStale(m[k]) {
      MarkTwice(m[k]);
    }
  }

  lemma DropBoth<A>(m: PathMap<A>, p: Region, q: Region)
    ensures DropWhere(DropWhere(m, p), q) == DropWhere(m, Both(p, q))
  {
    forall k | k in m ensures Fresh(Fresh(m[k])) == Fresh(m[k]) {
      FreshTwice(m[k]);
    }
    hide Fresh;
    assert DropWhere(DropWhere(m, p), q).Keys == DropWhere(m, Both(p, q)).Keys;
  }

  lemma MarkSame<A>(m: PathMap<A>, p: Region, q: Region)
    requires forall k :: k in m ==> p(k) == q(k)
    ensures MarkWhere(m, p) == MarkWhere(m, q)
  {
  }

  lemma DropSame<A>(m: PathMap<A>, p: Region, q: Region)
    requires forall k :: k in m ==> p(k) == q(k)
    ensures DropWhere(m, p) == DropWhere(m, q)
  {
    hide Fresh;
    assert DropWhere(m, p).Keys == DropWhere(m, q).Keys;
  }

  lemma MarkNone<A>(m: PathMap<A>, p: Region)
    requires forall k :: k in m ==> !p(k)
    ensures MarkWhere(m, p) == m
  {
  }

  lemma DropNone<A>(m: PathMap<A>, p: Region)
    requires forall k :: k in m ==> !p(k)
    ensures DropWhere(m, p) == m
  {
    hide Fresh;
  }

  lemma MarkAll<A>(m: PathMap<A>, p: Region)
    requires forall k :: k in m ==> p(k)
    ensures MarkWhere(m, p) == MarkAllStale(m)
  {
  }

  lemma DropAll<A>(m: PathMap<A>, p: Region)
    requires forall k :: k in m ==> p(k)
    ensures DropWhere(m, p) == DropStale(m)
  {
    hide Fresh;
    assert DropWhere(m, p).Keys == DropStale(m).Keys;
  }

  lemma MarkOne<A>(m: PathMap<A>, k: Key)
    requires k in m ==> m[k] != []
    ensures MarkWhere(m, JustAt(k)) == With(m, k, MarkStale(At(m, k)))
  {
  }

  lemma DropOne<A>(m: PathMap<A>, k: Key)
    requires k in m ==> m[k] != []
    ensures DropWhere(m, JustAt(k)) == With(m, k, Fresh(At(m, k)))
  {
    hide Fresh;
    FreshOfNone<A>();
    assert DropWhere(m, JustAt(k)).Keys == With(m, k, Fresh(At(m, k))).Keys;
  }

  lemma FreshOfNone<A>()
    ensures Fresh<A>([]) == []
  {
  }

  // ---- Subtrees and roots -----------------------------------------------------------------------------

  /** A sweep of a subtree: its top, then its left part, then its right part. */
  lemma MarkSubtree<A>(m: PathMap<A>, k: Key)
    requires k in m ==> m[k] != []
    ensures MarkWhere(MarkWhere(With(m, k, MarkStale(At(m, k))), Below(Ext(k, false))), Below(Ext(k, true)))
         == MarkWhere(m, Below(k))
  {
    MarkOne(m, k);
    var l, r := Below(Ext(k, false)), Below(Ext(k, true));
    MarkBoth(MarkWhere(m, JustAt(k)), l, r);
    MarkBoth(m, JustAt(k), Both(l, r));
    forall x ensures Below(k)(x) == Both(JustAt(k), Both(l, r))(x) {
      UnderSplit(k, x);
    }
    MarkSame(m, Below(k), Both(JustAt(k), Both(l, r)));
  }

  lemma RegionSplit(k: Key, x: Key)
    ensures Below(k)(x) == Both(Both(Below(Ext(k, false)), Below(Ext(k, true))), JustAt(k))(x)
  {
    UnderSplit(k, x);
  }

  lemma DropSubtree<A>(m: PathMap<A>, k: Key)
    ensures DropWhere(DropWhere(DropWhere(m, Below(Ext(k, false))), Below(Ext(k, true))), JustAt(k))
         == DropWhere(m, Below(k))
  {
    var l, r := Below(Ext(k, false)), Below(Ext(k, true));
    DropBoth(m, l, r);
    DropBoth(m, Both(l, r), JustAt(k));
    forall x ensures Below(k)(x) == Both(Both(l, r), JustAt(k))(x) {
      RegionSplit(k, x);
    }
    DropSame(m, Below(k), Both(Both(l, r), JustAt(k)));
  }

  lemma NextRoot(f: Family, n: nat, x: Key)
    requires n < f.RootSize()
    ensures FirstRoots(f, n + 1)(x) == Both(FirstRoots(f, n), Below(Root(f.OctetOf(n))))(x)
  {
    hide Family.OctetOf, Family.IndexOf, Family.Indexable, Family.Admits, IsValidV4;
    hide Under, OctetOfKey;
    UnderRoot(f.OctetOf(n), x);
    SlotIff(f, n, OctetOfKey(x));
  }

  lemma MarkNextRoot<A>(f: Family, m: PathMap<A>, n: nat)
    requires n < f.RootSize()
    ensures MarkWhere(MarkWhere(m, FirstRoots(f, n)), Below(Root(f.OctetOf(n)))) == MarkWhere(m, FirstRoots(f, n + 1))
  {
    var p, q := FirstRoots(f, n), Below(Root(f.OctetOf(n)));
    MarkBoth(m, p, q);
    forall x ensures FirstRoots(f, n + 1)(x) == Both(p, q)(x) {
      NextRoot(f, n, x);
    }
    MarkSame(m, FirstRoots(f, n + 1), Both(p, q));
  }

  lemma DropNextRoot<A>(f: Family, m: PathMap<A>, n: nat)
    requires n < f.RootSize()
    ensures DropWhere(DropWhere(m, FirstRoots(f, n)), Below(Root(f.OctetOf(n)))) == DropWhere(m, FirstRoots(f, n + 1))
  {
    var p, q := FirstRoots(f, n), Below(Root(f.OctetOf(n)));
    DropBoth(m, p, q);
    forall x ensures FirstRoots(f, n + 1)(x) == Both(p, q)(x) {
      NextRoot(f, n, x);
    }
    DropSame(m, FirstRoots(f, n + 1), Both(p, q));
  }

  // ---- Removed prefixes ---------------------------------------------------------------------------------

  /** Sweeping one region does not change which prefixes of another are all stale. */
  lemma AllStaleElsewhere<A>(m: PathMap<A>, p: Region, x: Key)
    requires !p(x)
    ensures x in AllStale(DropWhere(m, p)) <==> x in AllStale(m)
  {
    hide Fresh;
  }

  /** The removals of a subtree sweep, in order: left, right, top. */
  lemma RemovedSubtree<A>(m: PathMap<A>, k: Key, max: nat)
    requires Depth(k) < max
    ensures var l, r := Ext(k, false), Ext(k, true);
      var m1 := DropWhere(m, Below(l));
      var m2 := DropWhere(m1, Below(r));
      PostOrder(AllStale(m), k, max) ==
        PostOrder(AllStale(m), l, max) + PostOrder(AllStale(m1), r, max) + (if k in AllStale(m2) then [k] else [])
  {
    var l, r := Ext(k, false), Ext(k, true);
    var m1 := DropWhere(m, Below(l));
    forall x ensures Under(r, x) ==> (x in AllStale(m1) <==> x in AllStale(m)) {
      UnderSplit(k, x);
      if Under(r, x) { AllStaleElsewhere(m, Below(l), x); }
    }
    PostOrderSame(AllStale(m1), AllStale(m), r, max);
    UnderSplit(k, k);
    AllStaleElsewhere(m, Below(l), k);
    AllStaleElsewhere(m1, Below(r), k);
  }

  lemma RemovedNextRoot<A>(f: Family, m: PathMap<A>, n: nat)
    requires n < f.RootSize()
    ensures var m1 := DropWhere(m, FirstRoots(f, n));
      PostOrderRoots(f, AllStale(m), n + 1) ==
        PostOrderRoots(f, AllStale(m), n) + PostOrder(AllStale(m1), Root(f.OctetOf(n)), f.MaxLen())
  {
    hide Family.OctetOf, Family.IndexOf, Family.Indexable, Family.Admits, IsValidV4;
    hide Under, OctetOfKey, DropWhere, AllStale, PostOrder;
    var m1, r := DropWhere(m, FirstRoots(f, n)), Root(f.OctetOf(n));
    forall x ensures Under(r, x) ==> (x in AllStale(m1) <==> x in AllStale(m)) {
      UnderRoot(f.OctetOf(n), x);
      SlotIff(f, n, OctetOfKey(x));
      if Under(r, x) { AllStaleElsewhere(m, FirstRoots(f, n), x); }
    }
    PostOrderSame(AllStale(m1), AllStale(m), r, f.MaxLen());
  }

  // ---- The per-node loop: delete the first stale path until there is none -----------------------------

  lemma SweepStart<A>(m: PathMap<A>, k: Key)
    requires k in m ==> m[k] != []
    ensures m == With(m, k, At(m, k))
  {
  }

  /** One round removes one stale path and keeps the fresh ones as they are. */
  lemma SweepStep<A>(c: PathMap<A>, m: PathMap<A>, k: Key, id: uint32)
    requires c == With(m, k, At(c, k)) && UniqueIDs(At(c, k))
    requires var i := FirstStale(At(c, k)); i < |At(c, k)| && At(c, k)[i].pathID == id
    ensures Deleted(At(c, k), id).Some?
    ensures var c' := Delete(c, k, id);
      && c' == With(m, k, At(c', k))
      && Fresh(At(c', k)) == Fresh(At(c, k))
      && |At(c', k)| == |At(c, k)| - 1
      && Occurrences(c') + multiset{Deleted(At(c, k), id).value} == Occurrences(c)
  {
    var s := At(c, k);
    IndexUnique(s, FirstStale(s));
    WithoutStale(s, FirstStale(s));
    DeleteConserves(c, k, id);
    hide Occurrences, Fresh, IndexOf, FirstStale;
    WithWith(m, k, s, DeletePath(s, id));
  }

  /** Removing a stale path does not change what will survive the flush. */
  lemma SweptSame<A>(m: PathMap<A>, k: Key, id: uint32)
    requires WellFormed(m)
    requires var i := FirstStale(At(m, k)); i < |At(m, k)| && At(m, k)[i].pathID == id
    ensures DropStale(Delete(m, k, id)) == DropStale(m)
  {
    SweepStart(m, k);
    SweepStep(m, m, k, id);
    hide WellFormed, FirstStale, Delete, Fresh, With, Occurrences;
    var d := Delete(m, k, id);
    SameDrop(m, d, k);
  }

  lemma SameDrop<A>(m: PathMap<A>, d: PathMap<A>, k: Key)
    requires d == With(m, k, At(d, k)) && Fresh(At(d, k)) == Fresh(At(m, k))
    ensures DropStale(d) == DropStale(m)
  {
    FreshOfNone<A>();
    forall x ensures Fresh(At(d, x)) == Fresh(At(m, x)) {
    }
    hide Fresh, With;
    assert forall x :: x in DropStale(d) <==> Fresh(At(d, x)) != [];
    assert forall x :: x in DropStale(m) <==> Fresh(At(m, x)) != [];
  }

  /** The positions that had only stale paths are still there, or the last of their paths has just gone. */
  lemma EmptiedOne<A>(m: PathMap<A>, k: Key, id: uint32)
    requires WellFormed(m)
    requires var i := FirstStale(At(m, k)); i < |At(m, k)| && At(m, k)[i].pathID == id
    ensures var d := Delete(m, k, id); AllStale(m) == (if k in d then {} else {k}) + AllStale(d)
  {
    SweepStart(m, k);
    SweepStep(m, m, k, id);
    assert k in m;
    hide *;
    EmptiedAt(m, Delete(m, k, id), k);
  }

  lemma EmptiedAt<A>(m: PathMap<A>, d: PathMap<A>, k: Key)
    requires k in m && d == With(m, k, At(d, k)) && Fresh(At(d, k)) == Fresh(At(m, k))
    ensures AllStale(m) == (if k in d then {} else {k}) + AllStale(d)
  {
    FreshOfNone<A>();
    hide Fresh;
    forall x ensures x in AllStale(m) <==> x in (if k in d then {} else {k}) + AllStale(d) {
      assert x != k ==> (x in d <==> x in m) && (x in m ==> d[x] == m[x]);
    }
  }

  lemma WithWith<A>(m: PathMap<A>, k: Key, s: seq<PathEntry<A>>, t: seq<PathEntry<A>>)
    ensures With(With(m, k, s), k, t) == With(m, k, t)
  {
  }

  lemma SweepEnd<A>(c: PathMap<A>, m: PathMap<A>, k: Key)
    requires c == With(m, k, At(c, k)) && FirstStale(At(c, k)) == |At(c, k)|
    requires Fresh(At(c, k)) == Fresh(At(m, k))
    ensures At(c, k) == Fresh(At(m, k)) && c == With(m, k, Fresh(At(m, k)))
    ensures |At(c, k)| < |At(m, k)| <==> At(c, k) != At(m, k)
  {
    FreshNothingStale(At(c, k));
    FreshNothingStale(At(m, k));
  }

  // ---- References held below a position ---------------------------------------------------------------

  ghost function KeysWhere<A>(m: PathMap<A>, p: Region): set<Key>
  {
    set k | k in m && p(k)
  }

  ghost function OccurrencesWhere<A>(m: PathMap<A>, p: Region): multiset<A>
  {
    SumOver(KeysWhere(m, p), AttrsAt(m))
  }

  lemma OccurrencesBoth<A>(m: PathMap<A>, p: Region, q: Region, r: Region)
    requires forall k :: k in m ==> (r(k) <==> p(k) || q(k)) && !(p(k) && q(k))
    ensures OccurrencesWhere(m, r) == OccurrencesWhere(m, p) + OccurrencesWhere(m, q)
  {
    assert KeysWhere(m, r) == KeysWhere(m, p) + KeysWhere(m, q);
    SumUnion(KeysWhere(m, p), KeysWhere(m, q), AttrsAt(m));
  }

  lemma OccurrencesHere<A>(m: PathMap<A>, k: Key)
    ensures OccurrencesWhere(m, JustAt(k)) == AttrsOf(At(m, k))
  {
    var none: set<Key> := {};
    if k in m {
      assert KeysWhere(m, JustAt(k)) == {k};
      Peel({k}, AttrsAt(m), k);
      assert {k} - {k} == none;
    } else {
      assert KeysWhere(m, JustAt(k)) == none;
    }
    assert SumOver(none, AttrsAt(m)) == multiset{};
  }

  /** A walk of a subtree meets each reference below its top exactly once. */
  lemma OccurrencesSubtree<A>(m: PathMap<A>, k: Key)
    ensures OccurrencesWhere(m, Below(k)) == AttrsOf(At(m, k))
      + OccurrencesWhere(m, Below(Ext(k, false))) + OccurrencesWhere(m, Below(Ext(k, true)))
  {
    var l, r := Below(Ext(k, false)), Below(Ext(k, true));
    forall x
      ensures Below(k)(x) <==> Both(JustAt(k), l)(x) || r(x)
      ensures !(Both(JustAt(k), l)(x) && r(x)) && !(JustAt(k)(x) && l(x))
    {
      UnderSplit(k, x);
    }
    OccurrencesBoth(m, Both(JustAt(k), l), r, Below(k));
    OccurrencesBoth(m, JustAt(k), l, Both(JustAt(k), l));
    OccurrencesHere(m, k);
  }

  lemma OccurrencesNone<A>(m: PathMap<A>, p: Region)
    requires forall k :: k in m ==> !p(k)
    ensures OccurrencesWhere(m, p) == multiset{}
  {
    assert KeysWhere(m, p) == {};
  }

  lemma NoneBelow<A>(m: PathMap<A>, l: Key)
    requires forall x :: x in m ==> !Under(l, x)
    ensures OccurrencesWhere(m, Below(l)) == multiset{}
  {
    OccurrencesNone(m, Below(l));
  }

  lemma OccurrencesAll<A>(m: PathMap<A>, p: Region)
    requires forall k :: k in m ==> p(k)
    ensures OccurrencesWhere(m, p) == Occurrences(m)
  {
    assert KeysWhere(m, p) == m.Keys;
  }

  lemma OccurrencesNextRoot<A>(f: Family, m: PathMap<A>, n: nat)
    requires n < f.RootSize()
    ensures OccurrencesWhere(m, FirstRoots(f, n + 1)) ==
      OccurrencesWhere(m, FirstRoots(f, n)) + OccurrencesWhere(m, Below(Root(f.OctetOf(n))))
  {
    var p, q := FirstRoots(f, n), Below(Root(f.OctetOf(n)));
    forall x ensures (FirstRoots(f, n + 1)(x) <==> p(x) || q(x)) && !(p(x) && q(x)) {
      NextRoot(f, n, x);
      RootsApart(f, n, x);
    }
    OccurrencesBoth(m, p, q, FirstRoots(f, n + 1));
  }

  lemma RootsApart(f: Family, n: nat, x: Key)
    requires n < f.RootSize()
    ensures !(FirstRoots(f, n)(x) && Below(Root(f.OctetOf(n)))(x))
  {
    hide Family.OctetOf, Family.IndexOf, Family.Indexable, Family.Admits, IsValidV4, Under, OctetOfKey;
    UnderRoot(f.OctetOf(n), x);
    SlotIff(f, n, OctetOfKey(x));
  }
}
