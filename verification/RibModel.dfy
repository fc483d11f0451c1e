/** The reference model of a RIB: a map from trie position to the ordered paths stored there.

    `A` is the representation of attributes: content here and in the theorems about callers,
    pointers into the attribute table in the heap model and in the sharing protocol. */
module RibModel {
  import opened Addressing
  import opened Attributes
  import opened PathSeq
  import opened Sums

  type PathMap<A> = map<Key, seq<PathEntry<A>>>

  function At<A>(m: PathMap<A>, k: Key): seq<PathEntry<A>>
  {
    if k in m then m[k] else []
  }

  /** Stores a path sequence; an empty one removes the position. */
  function With<A>(m: PathMap<A>, k: Key, s: seq<PathEntry<A>>): (r: PathMap<A>)
    ensures forall x :: At(r, x) == if x == k then s else At(m, x)
  {
    if s == [] then m - {k} else m[k := s]
  }

  /** No position without paths, and path IDs unique at every position. */
  ghost predicate WellFormed<A>(m: PathMap<A>)
  {
    forall k :: k in m ==> m[k] != [] && UniqueIDs(m[k])
  }

  function Insert<A>(m: PathMap<A>, k: Key, id: uint32, attrs: A): PathMap<A>
  {
    With(m, k, SetPath(At(m, k), id, attrs, false))
  }

  /** Prefixes a RIB of family `f` stores; all others are ignored by insert. */
  predicate Accepts(f: Family, p: Prefix)
  {
    p.addr.family == f && InRange(f, p.bits) && f.Admits(p.addr.bytes[0])
  }

  function Delete<A>(m: PathMap<A>, k: Key, id: uint32): PathMap<A>
  {
    With(m, k, DeletePath(At(m, k), id))
  }

  function MarkAllStale<A>(m: PathMap<A>): PathMap<A>
  {
    map k | k in m :: MarkStale(m[k])
  }

  function DropStale<A>(m: PathMap<A>): PathMap<A>
  {
    map k | k in m && Fresh(m[k]) != [] :: Fresh(m[k])
  }

  lemma EditsKeepWellFormed<A>(m: PathMap<A>, k: Key, id: uint32, attrs: A)
    requires WellFormed(m)
    ensures WellFormed(Insert(m, k, id, attrs))
    ensures WellFormed(Delete(m, k, id))
    ensures WellFormed(MarkAllStale(m))
    ensures WellFormed(DropStale(m))
  {
    EditsKeepIDsUnique(At(m, k), id, attrs, false);
    forall x | x in m ensures UniqueIDs(MarkStale(m[x])) && UniqueIDs(Fresh(m[x])) {
      EditsKeepIDsUnique(m[x], id, attrs, false);
      FreshKeepsIDsUnique(m[x]);
    }
  }

  // ---- References and counts ------------------------------------------------------------------

  ghost function AttrsAt<A>(m: PathMap<A>): Key -> multiset<A>
  {
    k => AttrsOf(At(m, k))
  }

  /** Every attribute reference held by the map, with multiplicity. */
  ghost function Occurrences<A>(m: PathMap<A>): multiset<A>
  {
    SumOver(m.Keys, AttrsAt(m))
  }

  lemma OccurrencesSplit<A>(m: PathMap<A>, k: Key)
    ensures Occurrences(m) == AttrsOf(At(m, k)) + SumOver(m.Keys - {k}, AttrsAt(m))
  {
    if k in m {
      Peel(m.Keys, AttrsAt(m), k);
    } else {
      assert m.Keys - {k} == m.Keys;
    }
  }

  /** Every stored attribute is referenced. */
  lemma StoredAttr<A>(m: PathMap<A>, k: Key, i: nat)
    requires k in m && i < |m[k]|
    ensures m[k][i].attrs in Occurrences(m)
  {
    OccurrencesSplit(m, k);
    AttrIn(m[k], i);
  }

  lemma OccurrencesWith<A>(m: PathMap<A>, k: Key, s: seq<PathEntry<A>>)
    ensures Occurrences(With(m, k, s)) + AttrsOf(At(m, k)) == Occurrences(m) + AttrsOf(s)
  {
    var r := With(m, k, s);
    assert r.Keys - {k} == m.Keys - {k};
    OccurrencesSplit(m, k);
    OccurrencesSplit(r, k);
    SameTerms(m.Keys - {k}, AttrsAt(m), AttrsAt(r));
    var rest := SumOver(m.Keys - {k}, AttrsAt(m));
    assert AttrsOf(s) + rest + AttrsOf(At(m, k)) == AttrsOf(At(m, k)) + rest + AttrsOf(s);
  }

  ghost function Ref<A>(d: Option<A>): multiset<A>
  {
    if d.Some? then multiset{d.value} else multiset{}
  }

  /** One insert takes one reference and gives back the displaced one. */
  lemma InsertConserves<A>(m: PathMap<A>, k: Key, id: uint32, attrs: A)
    ensures Occurrences(Insert(m, k, id, attrs)) + Ref(Displaced(At(m, k), id)) == Occurrences(m) + multiset{attrs}
  {
    var s := At(m, k);
    var t := SetPath(s, id, attrs, false);
    OccurrencesWith(m, k, t);
    PutAttrs(s, SlotFor(s, id), PathEntry(attrs, id, false));
    Chain(Occurrences(Insert(m, k, id, attrs)), Occurrences(m), AttrsOf(t), AttrsOf(s),
          multiset{attrs}, Ref(Displaced(s, id)));
  }

  /** One delete gives back exactly the deleted reference. */
  lemma DeleteConserves<A>(m: PathMap<A>, k: Key, id: uint32)
    ensures Occurrences(Delete(m, k, id)) + Ref(Deleted(At(m, k), id)) == Occurrences(m)
  {
    var s := At(m, k);
    var t := DeletePath(s, id);
    OccurrencesWith(m, k, t);
    if IndexOf(s, id) < |s| { WithoutAttrs(s, IndexOf(s, id)); }
    Chain(Occurrences(Delete(m, k, id)), Occurrences(m), AttrsOf(t), AttrsOf(s), multiset{}, Ref(Deleted(s, id)));
  }

  lemma MarkConserves<A>(m: PathMap<A>)
    ensures Occurrences(MarkAllStale(m)) == Occurrences(m)
  {
    forall k | k in m ensures AttrsAt(m)(k) == AttrsAt(MarkAllStale(m))(k) {
      MarkAttrs(m[k]);
    }
    SameTerms(m.Keys, AttrsAt(m), AttrsAt(MarkAllStale(m)));
    assert MarkAllStale(m).Keys == m.Keys;
  }

  lemma {:induction false} MarkAttrs<A>(s: seq<PathEntry<A>>)
    ensures AttrsOf(MarkStale(s)) == AttrsOf(s)
  {
    if s != [] {
      assert MarkStale(s)[1..] == MarkStale(s[1..]);
      MarkAttrs(s[1..]);
    }
  }

  /** The stored paths, one by one. */
  ghost function Slots<A>(m: PathMap<A>): set<(Key, int)>
  {
    set k, i | k in m && 0 <= i < |m[k]| :: (k, i)
  }

  ghost function SlotsUpTo(k: Key, n: nat): set<(Key, int)>
  {
    set i | 0 <= i < n :: (k, i)
  }

  lemma {:induction false} SlotsOfOne(k: Key, n: nat)
    ensures |SlotsUpTo(k, n)| == n
  {
    if n == 0 {
      assert SlotsUpTo(k, 0) == {};
    } else {
      SlotsOfOne(k, n - 1);
      assert SlotsUpTo(k, n) == SlotsUpTo(k, n - 1) + {(k, n - 1)};
    }
  }

  /** References are counted once per stored path. */
  lemma {:induction false} PathTotal<A>(m: PathMap<A>)
    ensures |Slots(m)| == |Occurrences(m)|
    decreases |m|
  {
    if m == map[] {
      assert Slots(m) == {};
    } else {
      var k :| k in m;
      var rest := m - {k};
      PathTotal(rest);
      SlotsOfOne(k, |m[k]|);
      assert Slots(m) == Slots(rest) + SlotsUpTo(k, |m[k]|);
      OccurrencesSplit(m, k);
      SameTerms(rest.Keys, AttrsAt(m), AttrsAt(rest));
      assert rest.Keys == m.Keys - {k};
    }
  }

  /** How many stored positions have depth `len`. */
  ghost function OfLength<A>(m: PathMap<A>, len: int): set<Key>
  {
    set k | k in m && Depth(k) == len
  }

  function Present<A>(s: seq<A>): int
  {
    if s == [] then 0 else 1
  }

  lemma WithSize<A>(m: PathMap<A>, k: Key, s: seq<PathEntry<A>>)
    requires k in m ==> m[k] != []
    ensures |With(m, k, s)| == |m| - Present(At(m, k)) + Present(s)
  {
    var rest := m - {k};
    if k in m { assert m == rest[k := m[k]]; } else { assert m == rest; }
    if s != [] { assert With(m, k, s) == rest[k := s]; }
  }

  lemma WithLengths<A>(m: PathMap<A>, k: Key, s: seq<PathEntry<A>>, len: int)
    requires k in m ==> m[k] != []
    ensures |OfLength(With(m, k, s), len)| ==
      |OfLength(m, len)| + if len == Depth(k) then Present(s) - Present(At(m, k)) else 0
  {
    var r := With(m, k, s);
    var rest := OfLength(m, len) - {k};
    assert OfLength(r, len) == if len == Depth(k) && s != [] then rest + {k} else rest;
    assert OfLength(m, len) == if len == Depth(k) && k in m then rest + {k} else rest;
  }

  /** How the number of paths changes when one position is rewritten. */
  lemma WithPaths<A>(m: PathMap<A>, k: Key, s: seq<PathEntry<A>>)
    ensures |Occurrences(With(m, k, s))| == |Occurrences(m)| - |At(m, k)| + |s|
  {
    OccurrencesWith(m, k, s);
    var a, b := Occurrences(With(m, k, s)), Occurrences(m);
    assert |a + AttrsOf(At(m, k))| == |a| + |At(m, k)|;
    assert |b + AttrsOf(s)| == |b| + |s|;
  }

  ghost function Summed(g: int -> int, lo: int, hi: int): int
    requires lo <= hi
    decreases hi - lo
  {
    if lo == hi then 0 else Summed(g, lo, hi - 1) + g(hi - 1)
  }

  /** The counts per length add up to the number of prefixes. */
  lemma {:induction false} LengthsPartition<A>(m: PathMap<A>, hi: int)
    requires 8 <= hi && forall k :: k in m ==> Depth(k) < hi
    ensures Summed(len => |OfLength(m, len)|, 8, hi) == |m|
    decreases hi
  {
    var g := len => |OfLength(m, len)|;
    if hi == 8 {
      assert forall k :: k in m ==> Depth(k) >= 8;
      assert m.Keys == {};
    } else {
      var last := OfLength(m, hi - 1);
      var rest := m - last;
      LengthsPartition(rest, hi - 1);
      SummedSame(len => |OfLength(rest, len)|, g, m, rest, hi - 1);
      assert m.Keys == rest.Keys + last;
      assert |m| == |rest| + |last|;
    }
  }

  lemma {:induction false} SummedSame<A>(f: int -> int, g: int -> int, m: PathMap<A>, rest: PathMap<A>, hi: int)
    requires 8 <= hi
    requires forall len :: f(len) == |OfLength(rest, len)| && g(len) == |OfLength(m, len)|
    requires forall len :: len < hi ==> OfLength(m, len) == OfLength(rest, len)
    ensures Summed(f, 8, hi) == Summed(g, 8, hi)
    decreases hi
  {
    if hi > 8 {
      SummedSame(f, g, m, rest, hi - 1);
      assert OfLength(m, hi - 1) == OfLength(rest, hi - 1);
    }
  }

  // ---- Change of attribute representation -------------------------------------------------------

  /** The same map with attributes represented differently. */
  function View<A, B>(f: A -> B, m: PathMap<A>): (r: PathMap<B>)
    ensures r.Keys == m.Keys
    ensures forall k :: At(r, k) == MapAttrs(f, At(m, k))
  {
    map k | k in m :: MapAttrs(f, m[k])
  }

  /** Every edit commutes with a change of representation. */
  lemma ViewEdits<A, B>(f: A -> B, m: PathMap<A>, k: Key, id: uint32, attrs: A)
    ensures View(f, Insert(m, k, id, attrs)) == Insert(View(f, m), k, id, f(attrs))
    ensures View(f, Delete(m, k, id)) == Delete(View(f, m), k, id)
  {
    MapEdits(f, At(m, k), id, attrs, false);
    ViewWith(f, m, k, SetPath(At(m, k), id, attrs, false));
    ViewWith(f, m, k, DeletePath(At(m, k), id));
  }

  lemma ViewWith<A, B>(f: A -> B, m: PathMap<A>, k: Key, s: seq<PathEntry<A>>)
    ensures View(f, With(m, k, s)) == With(View(f, m), k, MapAttrs(f, s))
  {
    assert s == [] <==> MapAttrs(f, s) == [];
    var l, r := View(f, With(m, k, s)), With(View(f, m), k, MapAttrs(f, s));
    assert l.Keys == r.Keys;
    forall x | x in l ensures l[x] == r[x] {
      assert At(l, x) == MapAttrs(f, At(With(m, k, s), x));
      assert At(r, x) == if x == k then MapAttrs(f, s) else At(View(f, m), x);
    }
  }

  lemma ViewMark<A, B>(f: A -> B, m: PathMap<A>)
    ensures View(f, MarkAllStale(m)) == MarkAllStale(View(f, m))
  {
    forall k | k in m ensures MapAttrs(f, MarkStale(m[k])) == MarkStale(MapAttrs(f, m[k])) {
      MapMark(f, m[k]);
    }
  }

  lemma ViewDrop<A, B>(f: A -> B, m: PathMap<A>)
    ensures View(f, DropStale(m)) == DropStale(View(f, m))
  {
    forall k | k in m
      ensures MapAttrs(f, Fresh(m[k])) == Fresh(MapAttrs(f, m[k]))
      ensures Fresh(m[k]) == [] <==> Fresh(MapAttrs(f, m[k])) == []
    {
      MapFresh(f, m[k]);
    }
    hide MapAttrs, Fresh;
    assert View(f, DropStale(m)).Keys == DropStale(View(f, m)).Keys;
  }
}
