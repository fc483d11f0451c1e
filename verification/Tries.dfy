/** The trie as a ghost map from position to node: what it means for the pointer structure to be
    consistent, and how each invariant survives a change at one node. */
module Tries {
  import opened Addressing
  import opened Enumeration
  import opened Attributes
  import opened Nodes
  import opened Octets
  import opened PathSeq
  import opened RibModel
  import opened Sweeps

  type Trie = map<Key, Node>
  type Content = PathMap<RouteAttributes>

  ghost function NodeAt(t: Trie, k: Key): Node?
  {
    if k in t then t[k] else null
  }

  /** Child and parent pointers agree with the positions, and every node sits below its parent. */
  ghost predicate Linked(t: Trie)
    reads t.Values`zero, t.Values`one, t.Values`parent
  {
    && (forall k :: k in t ==> t[k].key == k)
    && (forall k {:trigger t[k].zero} :: k in t ==> t[k].zero == NodeAt(t, Ext(k, false)))
    && (forall k {:trigger t[k].one} :: k in t ==> t[k].one == NodeAt(t, Ext(k, true)))
    && (forall k {:trigger t[k].parent} :: k in t ==>
          (k.Root? ==> t[k].parent == null) && (k.Ext? ==> t[k].parent != null && t[k].parent == NodeAt(t, k.up)))
  }

  /** The root array holds exactly the nodes at depth 8. */
  ghost predicate Rooted(f: Family, root: array<Node?>, t: Trie)
    reads root
  {
    && root.Length == f.RootSize()
    && (forall k :: k in t ==> f.Admits(OctetOfKey(k)) && Depth(k) <= f.MaxLen())
    && (forall i :: 0 <= i < root.Length ==> root[i] == NodeAt(t, Root(f.OctetOf(i))))
  }

  /** Each node's slots hold exactly the paths of its position, and nothing is stored elsewhere. */
  ghost predicate Stored(t: Trie, m: Content)
    reads t.Values`hasPath, t.Values`stale, t.Values`pathID, t.Values`attrs, t.Values`extra
  {
    && (forall k :: k in t ==> t[k].SlotsOK() && t[k].Paths() == At(m, k))
    && (forall k :: k in m ==> k in t && m[k] != [])
  }

  /** Every node outside `except` stores a path or has a child. */
  ghost predicate LiveExcept(t: Trie, except: set<Key>)
    reads (t - except).Values`hasPath, (t - except).Values`zero, (t - except).Values`one
  {
    forall k :: k in t - except ==> t[k].hasPath || t[k].zero != null || t[k].one != null
  }

  lemma UpIn(t: Trie, k: Key)
    requires Linked(t) && k in t && k.Ext?
    ensures k.up in t && t[k].parent == t[k.up]
  {
    var p := t[k].parent;
  }

  lemma NoOrphans(t: Trie, k: Key)
    requires Linked(t) && k !in t
    ensures Ext(k, false) !in t && Ext(k, true) !in t
  {
    if Ext(k, false) in t { UpIn(t, Ext(k, false)); }
    if Ext(k, true) in t { UpIn(t, Ext(k, true)); }
  }

  /** As `Stored`, leaving out one position. */
  ghost predicate StoredBut(t: Trie, m: Content, k: Key)
    reads (t - {k}).Values`hasPath, (t - {k}).Values`stale, (t - {k}).Values`pathID, (t - {k}).Values`attrs,
        (t - {k}).Values`extra
  {
    && (forall x :: x in t - {k} ==> t[x].SlotsOK() && t[x].Paths() == At(m, x))
    && (forall x :: x in m && x != k ==> x in t && m[x] != [])
  }

  /** The node at a position is at no other. */
  lemma NotElsewhere(t: Trie, u: Trie, k: Key)
    requires Linked(t) && k in t && forall x :: x in u ==> x in t && x != k && u[x] == t[x]
    ensures t[k] !in u.Values
  {
    forall x | x in u ensures u[x] != t[k] {
      assert t[x].key == x;
    }
  }

  lemma StoredSplit(t: Trie, m: Content, k: Key)
    requires Stored(t, m) && k in t
    ensures StoredBut(t, m, k) && t[k].SlotsOK() && t[k].Paths() == At(m, k)
  {
    hide Node.SlotsOK, Node.Paths;
  }

  lemma StoredJoin(t: Trie, m: Content, k: Key, s: seq<Entry>)
    requires StoredBut(t, m, k) && k in t && t[k].SlotsOK() && t[k].Paths() == s
    ensures Stored(t, With(m, k, s))
  {
    hide Node.SlotsOK, Node.Paths;
  }

  lemma LiveJoin(t: Trie, k: Key, e: set<Key>)
    requires k in t && LiveExcept(t, e + {k}) && (t[k].hasPath || t[k].zero != null || t[k].one != null)
    ensures LiveExcept(t, e)
  {
  }

  lemma LiveSplit(t: Trie, k: Key)
    requires LiveExcept(t, {})
    ensures LiveExcept(t, {k})
    ensures k in t ==> t[k].hasPath || t[k].zero != null || t[k].one != null
  {
    if k in t { assert k in t - {}; }
  }

  function MaskCount(masks: map<int, int>, len: int): int
  {
    if len in masks then masks[len] else 0
  }


  lemma RootedAfter(f: Family, root: array<Node?>, t: Trie, u: Trie, k: Key)
    requires Rooted(f, root, t) && k.Ext? && k.up in t && Depth(k) <= f.MaxLen()
    requires k in u && u == t[k := u[k]]
    ensures Rooted(f, root, u)
  {
    assert OctetOfKey(k) == OctetOfKey(k.up);
  }

  lemma StoredAfter(t: Trie, u: Trie, m: Content, k: Key)
    requires Stored(t, m) && k !in m && k in u && u == t[k := u[k]]
    requires u[k].SlotsOK() && u[k].Paths() == []
    ensures Stored(u, m)
  {
    hide Node.SlotsOK, Node.Paths;
  }

  lemma RootLinks(t: Trie, u: Trie, k: Key)
    requires Linked(t) && k.Root? && k !in t && k in u && u == t[k := u[k]]
    requires u[k].key == k && u[k].parent == null && u[k].zero == null && u[k].one == null
    ensures Linked(u)
  {
    NoOrphans(t, k);
  }

  lemma LiveAfter(t: Trie, u: Trie, k: Key)
    requires LiveExcept(t, {}) && k in u && u == t[k := u[k]]
    ensures LiveExcept(u, {k})
  {
    assert forall x :: x in u - {k} ==> x in t - {} && u[x] == t[x];
  }

  lemma KeyAt(t: Trie, k: Key)
    requires Linked(t) && k in t
    ensures t[k].key == k
  {
  }

  lemma RootSlot(f: Family, root: array<Node?>, t: Trie, octet: bv8)
    requires Rooted(f, root, t) && f.Indexable(octet)
    ensures f.IndexOf(octet) < root.Length && root[f.IndexOf(octet)] == NodeAt(t, Root(octet))
  {
    OctetSlot(f, octet);
  }

  /** Filling one slot of the root array. */
  lemma RootFilled(f: Family, root: array<Node?>, t: Trie, u: Trie, octet: bv8)
    requires root.Length == f.RootSize() && f.Admits(octet)
    requires forall k :: k in t ==> f.Admits(OctetOfKey(k)) && Depth(k) <= f.MaxLen()
    requires Root(octet) in u && u == t[Root(octet) := u[Root(octet)]]
    requires f.Indexable(octet) && root[f.IndexOf(octet)] == u[Root(octet)]
    requires forall i :: 0 <= i < root.Length && i != f.IndexOf(octet) ==> root[i] == NodeAt(t, Root(f.OctetOf(i)))
    ensures Rooted(f, root, u)
  {
    OctetSlot(f, octet);
    forall i | 0 <= i < root.Length ensures root[i] == NodeAt(u, Root(f.OctetOf(i))) {
      SlotOctet(f, i);
    }
  }

  lemma WholeOctets(f: Family, i: nat, mask: nat)
    requires 8 * i < mask <= f.MaxLen()
    ensures 8 * i + 8 <= f.MaxLen()
  {
  }

  /** The references after an insert, before and after the displaced one is released. */
  lemma InsertBalance(m: Content, k: Key, id: uint32, a: RouteAttributes, others: multiset<RouteAttributes>)
    ensures var d := Displaced(At(m, k), id);
      var held := Occurrences(m) + others + multiset{a};
      && (d.None? ==> held == Occurrences(Insert(m, k, id, a)) + others)
      && (d.Some? ==> d.value in held && held - multiset{d.value} == Occurrences(Insert(m, k, id, a)) + others)
  {
    InsertConserves(m, k, id, a);
    Balance(Occurrences(m), Occurrences(Insert(m, k, id, a)), multiset{a}, Ref(Displaced(At(m, k), id)), others);
  }

  lemma DeleteBalance(m: Content, k: Key, id: uint32, others: multiset<RouteAttributes>)
    ensures var d := Deleted(At(m, k), id);
      && (d.None? ==> Occurrences(m) == Occurrences(RibModel.Delete(m, k, id)))
      && (d.Some? ==> d.value in Occurrences(m) + others)
      && (d.Some? ==> Occurrences(m) + others - multiset{d.value} == Occurrences(RibModel.Delete(m, k, id)) + others)
  {
    DeleteConserves(m, k, id);
    hide Occurrences, Deleted;
    Balance(Occurrences(m), Occurrences(RibModel.Delete(m, k, id)), multiset{}, Ref(Deleted(At(m, k), id)), others);
    assert Occurrences(m) + others + multiset{} == Occurrences(m) + others;
  }

  lemma Balance<A>(y: multiset<A>, x: multiset<A>, a: multiset<A>, d: multiset<A>, others: multiset<A>)
    requires x + d == y + a
    ensures y + others + a - d == x + others && d <= y + others + a
  {
    assert y + others + a == (y + a) + others;
    assert x + others + d == (x + d) + others;
  }

  /** If the walk leaves the trie it never returns. */
  lemma {:induction false} NothingBelow(t: Trie, a: seq<bv8>, d: nat, e: nat)
    requires Linked(t) && 8 <= d <= e <= 8 * |a| && KeyOf(a, d) !in t
    ensures KeyOf(a, e) !in t
  {
    if d < e {
      NothingBelow(t, a, d, e - 1);
      if KeyOf(a, e) in t { UpIn(t, KeyOf(a, e)); }
    }
  }

  lemma RootedShrink(f: Family, root: array<Node?>, t: Trie, k: Key)
    requires Rooted(f, root, t) && k.Ext?
    ensures Rooted(f, root, t - {k})
  {
  }

  lemma StoredShrink(t: Trie, m: Content, k: Key)
    requires Stored(t, m) && k !in m
    ensures Stored(t - {k}, m)
  {
    hide Node.SlotsOK, Node.Paths;
  }

  function RootOf(k: Key): Key
  {
    Root(OctetOfKey(k))
  }

  lemma RootIsOwnRoot(k: Key)
    requires k.Root?
    ensures RootOf(k) == k
  {
  }

  lemma RootOfUp(k: Key)
    requires k.Ext?
    ensures RootOf(k.up) == RootOf(k) && Depth(k.up) < Depth(k)
  {
  }

  lemma LiveSame(t: Trie, e: set<Key>, f: set<Key>)
    requires LiveExcept(t, e) && e == f
    ensures LiveExcept(t, f)
  {
  }

  lemma LiveShrink(t: Trie, k: Key, r: Key)
    requires LiveExcept(t, {r} + {k}) && k.Ext?
    ensures LiveExcept(t - {k}, {r} + {k.up})
  {
    var u := t - {k};
    forall x | x in u - ({r} + {k.up}) ensures u[x].hasPath || u[x].zero != null || u[x].one != null {
      assert x in t - ({r} + {k});
    }
  }

  lemma LinkedShrink(t: Trie, k: Key)
    requires Linked(t) && k in t && k.Root? && t[k].zero == null && t[k].one == null
    ensures Linked(t - {k})
  {
    ChildOf(t, t[k], false);
    ChildOf(t, t[k], true);
  }

  lemma LiveWithout(t: Trie, k: Key)
    requires LiveExcept(t, {k})
    ensures LiveExcept(t - {k}, {})
  {
    assert forall x :: x in t - {k} - {} ==> x in t - {k};
  }

  lemma LiveRoot(t: Trie, k: Key)
    requires LiveExcept(t, {k}) && (k in t ==> t[k].hasPath || t[k].zero != null || t[k].one != null)
    ensures LiveExcept(t, {})
  {
    assert forall x :: x in t - {} ==> x == k || x in t - {k};
  }

  lemma LiveWeaken(t: Trie, e: set<Key>, f: set<Key>)
    requires LiveExcept(t, e) && e <= f
    ensures LiveExcept(t, f)
  {
    assert forall x :: x in t - f ==> x in t - e;
  }

  lemma IndexableKey(f: Family, root: array<Node?>, t: Trie, k: Key)
    requires Rooted(f, root, t) && k in t
    ensures f.Admits(OctetOfKey(k)) && f.Indexable(OctetOfKey(k))
  {
    OctetSlot(f, OctetOfKey(k));
  }

  lemma ParentOf(t: Trie, k: Key)
    requires Linked(t) && k in t
    ensures t[k].parent == null <==> k.Root?
    ensures k.Ext? ==> k.up in t && t[k].parent == t[k.up] && (if k.bit then t[k.up].one == t[k]
        else t[k.up].zero == t[k])
    ensures k.Ext? ==> t[k.up].zero != t[k.up].one || t[k.up].zero == null
  {
    if k.Ext? {
      UpIn(t, k);
      ChildOf(t, t[k.up], false);
      ChildOf(t, t[k.up], true);
    }
  }

  lemma KeyAtRoot(a: seq<bv8>)
    requires |a| >= 1
    ensures KeyOf(a, 8) == Root(a[0])
  {
  }

  lemma KeyStep(a: seq<bv8>, i: nat, j: nat)
    requires 1 <= i < |a| && j < 8
    ensures KeyOf(a, 8 * i + j + 1) == Ext(KeyOf(a, 8 * i + j), BitAt(a[i], j))
  {
    assert (8 * i + j) / 8 == i && (8 * i + j) % 8 == j;
  }

  lemma NodeHolds(t: Trie, m: Content, k: Key)
    requires Stored(t, m) && k in t
    ensures t[k].SlotsOK() && t[k].Paths() == At(m, k) && (t[k].hasPath <==> k in m)
    ensures k in m ==> m[k] != []
  {
  }

  ghost predicate CountersFor(m: Content, count: int, pathCount: int, masks: map<int, int>)
  {
    count == |m| && pathCount == |Occurrences(m)| && forall len :: MaskCount(masks, len) == |OfLength(m, len)|
  }

  /** Rewriting one position moves each counter by what changed there. */
  lemma CountersAfter(m: Content, k: Key, s: seq<Entry>, count: int, pathCount: int, masks: map<int, int>)
    requires CountersFor(m, count, pathCount, masks) && (k in m ==> m[k] != [])
    ensures var d := Present(s) - Present(At(m, k));
      CountersFor(With(m, k, s), count + d, pathCount + |s| - |At(m, k)|,
                  if d == 0 then masks else masks[Depth(k) := MaskCount(masks, Depth(k)) + d])
  {
    hide Occurrences, OfLength, With;
    WithSize(m, k, s);
    WithPaths(m, k, s);
    MasksAfter(m, k, s, masks);
  }

  lemma MasksAfter(m: Content, k: Key, s: seq<Entry>, masks: map<int, int>)
    requires (forall len :: MaskCount(masks, len) == |OfLength(m, len)|) && (k in m ==> m[k] != [])
    ensures var d := Present(s) - Present(At(m, k));
      var after := if d == 0 then masks else masks[Depth(k) := MaskCount(masks, Depth(k)) + d];
      forall len :: MaskCount(after, len) == |OfLength(With(m, k, s), len)|
  {
    hide OfLength, With;
    forall len {
      WithLengths(m, k, s, len);
    }
  }

  lemma StoredInside(t: Trie, m: Content)
    requires Stored(t, m)
    ensures forall k :: k in m ==> k in t && m[k] != []
  {
  }

  lemma ChildOf(t: Trie, n: Node, bit: bool)
    requires Linked(t) && n.key in t && t[n.key] == n
    ensures n.Child(bit) == NodeAt(t, Ext(n.key, bit))
    ensures n.Child(bit) != null ==> n.Child(bit).key == Ext(n.key, bit)
  {
  }

  lemma EmptyIsCounted(masks: map<int, int>)
    requires masks == map[]
    ensures var m: Content := map[];
      |Occurrences(m)| == 0 && forall len :: MaskCount(masks, len) == |OfLength(m, len)|
  {
    var m: Content := map[];
    assert m.Keys == {};
    forall len ensures OfLength(m, len) == {} {
    }
  }

  /** A missing child means nothing is stored below it. */
  lemma ChildIn(t: Trie, m: Content, n: Node, bit: bool)
    requires Linked(t) && Stored(t, m) && n.key in t && t[n.key] == n
    ensures var l, c := Ext(n.key, bit), if bit then n.one else n.zero;
      && (c != null <==> l in t)
      && (c != null ==> c == t[l] && c.key == l)
      && (l !in t ==> MarkWhere(m, Below(l)) == m && DropWhere(m, Below(l)) == m && forall x :: x in m ==> !Under(l, x))
  {
    hide MarkWhere, DropWhere, Node.SlotsOK, Node.Paths;
    var l := Ext(n.key, bit);
    ChildOf(t, n, bit);
    if l !in t {
      forall x | x in m ensures !Under(l, x) {
        if Under(l, x) { AncestorIn(t, l, x); }
      }
      MarkNone(m, Below(l));
      DropNone(m, Below(l));
    }
  }

  lemma {:induction false} AncestorIn(t: Trie, a: Key, x: Key)
    requires Linked(t) && x in t && Under(a, x)
    ensures a in t
  {
    if a != x {
      UpIn(t, x);
      AncestorIn(t, a, x.up);
    }
  }

  lemma KeyDepth(f: Family, root: array<Node?>, t: Trie, k: Key)
    requires Rooted(f, root, t) && k.Ext?
    ensures k in t ==> Depth(k) == Depth(k.up) + 1 <= f.MaxLen()
  {
  }

  /** With a path count of zero nothing is stored, so marking would change nothing. */
  lemma NoPathsNoContent(t: Trie, m: Content, count: int, pathCount: int, masks: map<int, int>)
    requires Stored(t, m) && CountersFor(m, count, pathCount, masks) && pathCount == 0
    ensures m == map[] && RibModel.MarkAllStale(m) == m
  {
    hide Linked, Node.SlotsOK, Node.Paths;
    forall k | k in m ensures false {
      PathsAreCounted(m, k);
    }
  }

  lemma PathsAreCounted(m: Content, k: Key)
    requires k in m && m[k] != []
    ensures |Occurrences(m)| > 0
  {
    OccurrencesSplit(m, k);
    assert |AttrsOf(At(m, k))| == |m[k]| > 0;
  }

  lemma StartMark(t: Trie, f: Family, m: Content)
    ensures MarkWhere(m, FirstRoots(f, 0)) == m
    ensures DropWhere(m, FirstRoots(f, 0)) == m
  {
    MarkNone(m, FirstRoots(f, 0));
    DropNone(m, FirstRoots(f, 0));
  }

  /** The array entry for slot `i`, and what its absence means. */
  lemma RootBelow(f: Family, root: array<Node?>, t: Trie, m: Content, i: nat)
    requires Linked(t) && Rooted(f, root, t) && Stored(t, m) && i < f.RootSize()
    ensures var k := Root(f.OctetOf(i));
      && i < root.Length && (root[i] != null <==> k in t)
      && (k in t ==> root[i] == t[k] && t[k].key == k)
      && (k !in t ==> MarkWhere(m, Below(k)) == m && DropWhere(m, Below(k)) == m && forall x :: x in m ==> !Under(k, x))
  {
    hide MarkWhere, DropWhere, Node.SlotsOK, Node.Paths, Family.OctetOf;
    var k := Root(f.OctetOf(i));
    if k !in t {
      forall x | x in m ensures !Under(k, x) {
        if Under(k, x) { AncestorIn(t, k, x); }
      }
      MarkNone(m, Below(k));
      DropNone(m, Below(k));
    }
  }

  lemma AllRootsMarked(f: Family, root: array<Node?>, t: Trie, m: Content)
    requires Linked(t) && Rooted(f, root, t)
    requires Stored(t, MarkWhere(m, FirstRoots(f, root.Length)))
    ensures MarkWhere(m, FirstRoots(f, root.Length)) == RibModel.MarkAllStale(m)
  {
    forall k | k in m ensures FirstRoots(f, root.Length)(k) {
      assert k in MarkWhere(m, FirstRoots(f, root.Length));
      OctetSlot(f, OctetOfKey(k));
    }
    MarkAll(m, FirstRoots(f, root.Length));
  }

  /** Marking changes no counter. */
  lemma MarkCounters(m: Content, count: int, pathCount: int, masks: map<int, int>)
    requires CountersFor(m, count, pathCount, masks)
    ensures CountersFor(RibModel.MarkAllStale(m), count, pathCount, masks)
  {
    var r := RibModel.MarkAllStale(m);
    MarkConserves(m);
    assert r.Keys == m.Keys;
    assert |r| == |m|;
    forall len ensures OfLength(r, len) == OfLength(m, len) {
    }
  }

  /** The counters after the fresh paths of one position are all that is left there. */
  lemma DropCounters(m: Content, k: Key, count: int, pathCount: int, masks: map<int, int>)
    requires CountersFor(m, count, pathCount, masks) && k in m && m[k] != []
    ensures var s := Fresh(At(m, k));
      var paths := pathCount - |At(m, k)| + |s|;
      && (s != [] ==> CountersFor(With(m, k, s), count, paths, masks))
      && (s == [] ==> CountersFor(With(m, k, s), count - 1, paths, masks[Depth(k) := MaskCount(masks, Depth(k)) - 1]))
  {
    hide CountersFor, With, Fresh;
    CountersAfter(m, k, Fresh(At(m, k)), count, pathCount, masks);
  }

  /** The counters after one path is deleted. */
  lemma DeleteCounters(m: Content, k: Key, id: uint32, count: int, pathCount: int, masks: map<int, int>)
    requires CountersFor(m, count, pathCount, masks) && (k in m ==> m[k] != [])
    ensures var d, r := Deleted(At(m, k), id), RibModel.Delete(m, k, id);
      && (d.None? ==> r == m)
      && (d.Some? && k in r ==> CountersFor(r, count, pathCount - 1, masks))
      && (d.Some? && k !in r ==> k in m && CountersFor(r, count - 1, pathCount - 1,
          masks[Depth(k) := MaskCount(masks, Depth(k)) - 1]))
  {
    hide CountersFor, PathSeq.DeletePath;
    DeletePathCount(At(m, k), id);
    CountersAfter(m, k, PathSeq.DeletePath(At(m, k), id), count, pathCount, masks);
  }

  lemma DeletedIsThere(s: seq<Entry>)
    ensures var i := FirstStale(s); i < |s| ==> Deleted(s, s[i].pathID).Some?
  {
  }

  lemma UniqueAt(t: Trie, m: Content, k: Key)
    requires Stored(t, m) && k in t
    ensures UniqueIDs(At(m, k))
  {
    hide UniqueIDs, Node.Paths;
    StoredSplit(t, m, k);
  }

  lemma DropPresence(m: Content, k: Key)
    requires k in m && m[k] != []
    ensures k in AllStale(m) <==> Fresh(At(m, k)) == []
    ensures Fresh(At(m, k)) == [] ==> Fresh(At(m, k)) != At(m, k)
    ensures k in With(m, k, Fresh(At(m, k))) <==> Fresh(At(m, k)) != []
    ensures At(With(m, k, Fresh(At(m, k))), k) == Fresh(At(m, k))
  {
  }

  // ---- The recursive stale sweep --------------------------------------------------------------------

  lemma AbsentBelow(t: Trie, m: Content, l: Key)
    requires Linked(t) && Stored(t, m) && l !in t
    ensures DropWhere(m, Below(l)) == m && forall x :: x in m ==> !Under(l, x)
  {
    hide DropWhere, Node.SlotsOK, Node.Paths;
    forall x | x in m ensures !Under(l, x) {
      if Under(l, x) { AncestorIn(t, l, x); }
    }
    DropNone(m, Below(l));
  }

  /** What the walk sees at a child slot, whether or not the node itself is still in the trie. */
  lemma ChildOrGone(f: Family, root: array<Node?>, t: Trie, m: Content, n: Node, bit: bool)
    requires Linked(t) && Rooted(f, root, t) && Stored(t, m)
    requires if n.key in t then t[n.key] == n else n.zero == null && n.one == null
    ensures var l, c := Ext(n.key, bit), if bit then n.one else n.zero;
      && Depth(l) == Depth(n.key) + 1
      && (c != null ==> l in t && t[l] == c && c.key == l && Depth(l) <= f.MaxLen())
      && (c == null ==> DropWhere(m, Below(l)) == m)
      && (c == null && Depth(l) <= f.MaxLen() ==> PostOrder(AllStale(m), l, f.MaxLen()) == [])
  {
    hide DropWhere, Node.SlotsOK, Node.Paths, PostOrder;
    var l := Ext(n.key, bit);
    if n.key in t {
      ChildOf(t, n, bit);
    } else {
      NoOrphans(t, n.key);
    }
    if l in t {
      KeyAt(t, l);
      KeyDepth(f, root, t, l);
    } else {
      AbsentBelow(t, m, l);
      if Depth(l) <= f.MaxLen() { PostOrderEmpty(AllStale(m), l, f.MaxLen()); }
    }
  }

  lemma NextIs(f: Family, k: Key, bit: bool)
    requires Depth(k) < f.MaxLen()
    ensures Depth(k) / 8 < f.Octets()
    ensures NextAddr(AddrOf(k, f.Octets()), Depth(k), bit) == AddrOf(Ext(k, bit), f.Octets())
  {
  }

  lemma NothingToReport(f: Family, removed: seq<Prefix>)
    ensures removed + ToPrefixes(f, []) == removed
  {
  }

  lemma AllWithin(f: Family, root: array<Node?>, t: Trie, m: Content)
    requires Rooted(f, root, t) && Stored(t, m)
    ensures forall x :: x in m ==> Depth(x) <= f.MaxLen() && f.Admits(OctetOfKey(x))
  {
    StoredInside(t, m);
  }

  lemma NothingHere(t: Trie, m: Content, n: Node)
    requires Stored(t, m) && !n.hasPath && (n.key in t ==> t[n.key] == n)
    ensures n.key !in m && n.key !in AllStale(m) && DropWhere(m, JustAt(n.key)) == m
  {
    StoredInside(t, m);
    if n.key in t { NodeHolds(t, m, n.key); }
    DropNone(m, JustAt(n.key));
  }

  /** The report of a subtree sweep in its three parts. */
  lemma ReportSubtree(f: Family, m: Content, k: Key)
    requires Depth(k) <= f.MaxLen() && forall x :: x in m ==> Depth(x) <= f.MaxLen()
    ensures var max, l, r := f.MaxLen(), Ext(k, false), Ext(k, true);
      var m1 := DropWhere(m, Below(l));
      var m2 := DropWhere(m1, Below(r));
      ToPrefixes(f, PostOrder(AllStale(m), k, max)) ==
        ToPrefixes(f, if Depth(k) < max then PostOrder(AllStale(m), l, max) else []) +
        ToPrefixes(f, if Depth(k) < max then PostOrder(AllStale(m1), r, max) else []) +
        (if k in AllStale(m2) then [PrefixOf(f, k)] else [])
  {
    hide ToPrefixes, PrefixOf, PostOrder, DropWhere, AllStale;
    var max, l, r := f.MaxLen(), Ext(k, false), Ext(k, true);
    var m1 := DropWhere(m, Below(l));
    if Depth(k) < max {
      RemovedSubtree(m, k, max);
      var here := k in AllStale(DropWhere(m1, Below(r)));
      ReportParts(f, PostOrder(AllStale(m), l, max), PostOrder(AllStale(m1), r, max), k, here);
    } else {
      ReportLeaf(f, m, k);
    }
  }

  /** At full depth there is nothing below. */
  lemma ReportLeaf(f: Family, m: Content, k: Key)
    requires Depth(k) == f.MaxLen() && forall x :: x in m ==> Depth(x) <= f.MaxLen()
    ensures DropWhere(DropWhere(m, Below(Ext(k, false))), Below(Ext(k, true))) == m
    ensures ToPrefixes(f, PostOrder(AllStale(m), k, f.MaxLen())) ==
      ToPrefixes(f, []) + ToPrefixes(f, []) + (if k in AllStale(m) then [PrefixOf(f, k)] else [])
  {
    var l, r := Ext(k, false), Ext(k, true);
    forall x | x in m ensures !Under(l, x) && !Under(r, x) {
      if Under(l, x) { UnderDepth(l, x); }
      if Under(r, x) { UnderDepth(r, x); }
    }
    DropNone(m, Below(l));
    DropNone(m, Below(r));
    hide DropWhere, AllStale, PrefixOf, Under;
  }

  lemma ReportParts(f: Family, a: seq<Key>, b: seq<Key>, k: Key, here: bool)
    requires (forall x :: x in a ==> Depth(x) <= f.MaxLen()) && (forall x :: x in b ==> Depth(x) <= f.MaxLen())
    requires Depth(k) <= f.MaxLen()
    ensures (forall x :: x in a + b + (if here then [k] else []) ==> Depth(x) <= f.MaxLen())
    ensures ToPrefixes(f, a + b + (if here then [k] else [])) ==
      ToPrefixes(f, a) + ToPrefixes(f, b) + (if here then [PrefixOf(f, k)] else [])
  {
  }

  // ---- Pruning ----------------------------------------------------------------------------------------

  /** `u` is `t` after pruning: it lost only nodes below the top level, all of them empty leaves by then. */
  ghost predicate Shrunk(t: Trie, u: Trie)
    reads (t - u.Keys).Values`hasPath, (t - u.Keys).Values`zero, (t - u.Keys).Values`one
  {
    && (forall k :: k in u ==> k in t && u[k] == t[k])
    && (forall k :: k in t - u.Keys ==> k.Ext? && !t[k].hasPath && t[k].zero == null && t[k].one == null)
  }

  ghost predicate Keyed(t: Trie)
  {
    forall k :: k in t ==> t[k].key == k
  }

  lemma LinkedIsKeyed(t: Trie)
    requires Linked(t)
    ensures Keyed(t)
  {
  }

  lemma ShrunkSame(t: Trie)
    ensures Shrunk(t, t)
  {
  }

  /** Nodes pruned earlier are out of reach of later edits. */
  lemma GoneApart(t: Trie, u: Trie)
    requires Keyed(t) && forall k :: k in u ==> k in t && u[k] == t[k]
    ensures (t - u.Keys).Values !! u.Values && u.Values <= t.Values && Keyed(u)
  {
    forall k, l | k in t - u.Keys && l in u ensures t[k] != u[l] {
      assert t[k].key == k && u[l].key == l;
    }
  }

  lemma ShrunkTrans(t: Trie, u: Trie, v: Trie)
    requires Shrunk(t, u) && Shrunk(u, v)
    ensures Shrunk(t, v)
  {
    forall k | k in t - v.Keys ensures k.Ext? && !t[k].hasPath && t[k].zero == null && t[k].one == null {
      assert k in t - u.Keys || k in u - v.Keys;
    }
  }

  lemma ShrunkKeeps(t: Trie, u: Trie)
    requires Shrunk(t, u)
    ensures forall k :: k in u ==> k in t && u[k] == t[k]
  {
  }

  lemma ShrunkOne(t: Trie, k: Key)
    requires k in t && k.Ext? && !t[k].hasPath && t[k].zero == null && t[k].one == null
    ensures Shrunk(t, t - {k})
  {
  }

  lemma ShrunkAt(t: Trie, u: Trie, k: Key)
    requires Shrunk(t, u) && k in t
    ensures if k in u then u[k] == t[k] else !t[k].hasPath && t[k].zero == null && t[k].one == null
  {
    assert k !in u ==> k in t - u.Keys;
  }

  lemma PrefixAt(f: Family, k: Key)
    requires Depth(k) <= f.MaxLen()
    ensures PrefixOf(f, k) == Prefix(RawAddr.Addr(f, AddrOf(k, f.Octets())), Depth(k))
  {
  }

  lemma TwoParts<T>(s: seq<T>, s1: seq<T>, s2: seq<T>, a: seq<T>, b: seq<T>)
    requires s1 == s + a && (s2 == s1 + b || (b == [] && s2 == s1))
    ensures s2 == s + (a + b)
  {
  }

  lemma ExtDepth(k: Key)
    ensures forall bit :: Depth(Ext(k, bit)) == Depth(k) + 1
  {
  }

  lemma RootEntryFacts(f: Family, i: nat, m: Content)
    requires i < f.RootSize()
    ensures var k := Root(f.OctetOf(i));
      && RootOf(k) == k && Depth(k) == 8 <= f.MaxLen() && f.Indexable(f.OctetOf(i)) && f.Octets() >= 1
      && AddrOf(k, f.Octets()) == [f.OctetOf(i)] + seq(f.Octets() - 1, _ => 0)
      && ((forall x :: x in m ==> !Under(k, x)) ==> PostOrder(AllStale(m), k, f.MaxLen()) == [])
  {
    hide PostOrder, Under, Family.OctetOf, Family.Admits;
    var k := Root(f.OctetOf(i));
    SlotOctet(f, i);
    if forall x :: x in m ==> !Under(k, x) {
      PostOrderEmpty(AllStale(m), k, f.MaxLen());
    }
  }

  lemma StartSweep(t: Trie, f: Family, m: Content)
    ensures DropWhere(m, FirstRoots(f, 0)) == m
    ensures ToPrefixes(f, PostOrderRoots(f, AllStale(m), 0)) == []
    ensures Occurrences(m) + multiset{} == Occurrences(m)
  {
    StartMark(t, f, m);
  }

  lemma SweepNext(f: Family, m: Content, i: nat)
    requires i < f.RootSize()
    ensures var m1 := DropWhere(m, FirstRoots(f, i));
      && Depth(Root(f.OctetOf(i))) <= f.MaxLen()
      && DropWhere(m1, Below(Root(f.OctetOf(i)))) == DropWhere(m, FirstRoots(f, i + 1))
      && ToPrefixes(f, PostOrderRoots(f, AllStale(m), i + 1)) ==
           ToPrefixes(f, PostOrderRoots(f, AllStale(m), i)) + ToPrefixes(f, PostOrder(AllStale(m1),
               Root(f.OctetOf(i)), f.MaxLen()))
  {
    hide PostOrder, PostOrderRoots, DropWhere, AllStale, ToPrefixes, FirstRoots, Below;
    DropNextRoot(f, m, i);
    RemovedNextRoot(f, m, i);
    ToPrefixesConcat(f, PostOrderRoots(f, AllStale(m), i),
                     PostOrder(AllStale(DropWhere(m, FirstRoots(f, i))), Root(f.OctetOf(i)), f.MaxLen()));
  }

  lemma SweepDone(f: Family, root: array<Node?>, t: Trie, m: Content, n: nat)
    requires n == f.RootSize() && forall x :: x in m ==> f.Admits(OctetOfKey(x))
    ensures DropWhere(m, FirstRoots(f, n)) == DropStale(m)
  {
    forall x | x in m ensures FirstRoots(f, n)(x) {
      OctetSlot(f, OctetOfKey(x));
    }
    DropAll(m, FirstRoots(f, n));
  }

  lemma TallyBalance<A>(before: multiset<A>, after: multiset<A>, tally: multiset<A>, others: multiset<A>)
    requires after + tally == before
    ensures tally <= before + others && before + others - tally == after + others
  {
    assert before + others == after + others + tally;
  }

  lemma ResetBalance<A>(before: multiset<A>, after: multiset<A>, others: multiset<A>)
    requires after == multiset{}
    ensures before + others - before == after + others
  {
  }

  lemma StartCollect(f: Family, m: Content)
    ensures OccurrencesWhere(m, FirstRoots(f, 0)) == multiset{}
  {
    OccurrencesNone(m, FirstRoots(f, 0));
  }

  lemma AllCollected(f: Family, roots: array<Node?>, t: Trie, m: Content)
    requires Rooted(f, roots, t) && Stored(t, m)
    ensures OccurrencesWhere(m, FirstRoots(f, roots.Length)) == Occurrences(m)
  {
    AllWithin(f, roots, t, m);
    forall x | x in m ensures FirstRoots(f, roots.Length)(x) {
      OctetSlot(f, OctetOfKey(x));
    }
    OccurrencesAll(m, FirstRoots(f, roots.Length));
  }
}
