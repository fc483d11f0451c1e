/** The paths stored at one prefix, as a sequence: the inline path first, then the overflow.

    Everything here is generic in how attributes are represented, so the same laws serve the
    heap nodes (attributes are pointers) and the reference model (attributes are content). */
module PathSeq {
  import opened Attributes

  datatype Option<T> = None | Some(value: T)

  datatype PathEntry<A> = PathEntry(attrs: A, pathID: uint32, stale: bool)

  ghost predicate UniqueIDs<A>(s: seq<PathEntry<A>>)
  {
    forall i, j :: 0 <= i < j < |s| ==> s[i].pathID != s[j].pathID
  }

  /** Index of the first path with this ID, or |s|. */
  function IndexOf<A>(s: seq<PathEntry<A>>, id: uint32): (i: nat)
    ensures i <= |s| && (i < |s| ==> s[i].pathID == id)
    ensures forall j :: 0 <= j < i ==> s[j].pathID != id
  {
    if s == [] || s[0].pathID == id then 0 else 1 + IndexOf(s[1..], id)
  }

  /** Index of the first stale path, or |s|. */
  function FirstStale<A>(s: seq<PathEntry<A>>): (i: nat)
    ensures i <= |s| && (i < |s| ==> s[i].stale)
    ensures forall j :: 0 <= j < i ==> !s[j].stale
  {
    if s == [] || s[0].stale then 0 else 1 + FirstStale(s[1..])
  }

  /** Where a path with this ID goes: its own slot, else the first stale slot, else the end. */
  function SlotFor<A>(s: seq<PathEntry<A>>, id: uint32): (i: nat)
    ensures i <= |s|
  {
    if IndexOf(s, id) < |s| then IndexOf(s, id) else FirstStale(s)
  }

  function Put<A>(s: seq<PathEntry<A>>, i: nat, e: PathEntry<A>): seq<PathEntry<A>>
    requires i <= |s|
  {
    if i < |s| then s[i := e] else s + [e]
  }

  function SetPath<A>(s: seq<PathEntry<A>>, id: uint32, attrs: A, stale: bool): seq<PathEntry<A>>
  {
    Put(s, SlotFor(s, id), PathEntry(attrs, id, stale))
  }

  /** The attributes an insert pushes out, if any. */
  function Displaced<A>(s: seq<PathEntry<A>>, id: uint32): Option<A>
  {
    if SlotFor(s, id) < |s| then Some(s[SlotFor(s, id)].attrs) else None
  }

  function Without<A>(s: seq<PathEntry<A>>, i: nat): seq<PathEntry<A>>
    requires i < |s|
  {
    s[..i] + s[i + 1..]
  }

  function DeletePath<A>(s: seq<PathEntry<A>>, id: uint32): seq<PathEntry<A>>
  {
    if IndexOf(s, id) < |s| then Without(s, IndexOf(s, id)) else s
  }

  function Deleted<A>(s: seq<PathEntry<A>>, id: uint32): Option<A>
  {
    if IndexOf(s, id) < |s| then Some(s[IndexOf(s, id)].attrs) else None
  }

  function MarkStale<A>(s: seq<PathEntry<A>>): (r: seq<PathEntry<A>>)
    ensures |r| == |s|
  {
    seq(|s|, i requires 0 <= i < |s| => s[i].(stale := true))
  }

  /** The paths that are not stale, in their original order. */
  function Fresh<A>(s: seq<PathEntry<A>>): (r: seq<PathEntry<A>>)
    ensures |r| <= |s|
  {
    if s == [] then [] else (if s[0].stale then [] else [s[0]]) + Fresh(s[1..])
  }

  /** The non-stale attributes under a path ID. */
  function FreshAt<A>(s: seq<PathEntry<A>>, id: uint32): Option<A>
  {
    var i := IndexOf(s, id);
    if i < |s| && !s[i].stale then Some(s[i].attrs) else None
  }

  /** The attribute references a path sequence holds. */
  function AttrsOf<A>(s: seq<PathEntry<A>>): (m: multiset<A>)
    ensures |m| == |s|
  {
    if s == [] then multiset{} else multiset{s[0].attrs} + AttrsOf(s[1..])
  }

  function MapAttrs<A, B>(f: A -> B, s: seq<PathEntry<A>>): (r: seq<PathEntry<B>>)
    ensures |r| == |s|
  {
    seq(|s|, i requires 0 <= i < |s| => PathEntry(f(s[i].attrs), s[i].pathID, s[i].stale))
  }

  // ---- Position lemmas --------------------------------------------------------------------

  lemma IndexUnique<A>(s: seq<PathEntry<A>>, i: nat)
    requires UniqueIDs(s) && i < |s|
    ensures IndexOf(s, s[i].pathID) == i
  {
  }

  lemma {:induction false} FreshConcat<A>(s: seq<PathEntry<A>>, t: seq<PathEntry<A>>)
    ensures Fresh(s + t) == Fresh(s) + Fresh(t)
  {
    if s == [] {
      assert s + t == t;
    } else {
      assert (s + t)[1..] == s[1..] + t;
      FreshConcat(s[1..], t);
      Assoc(if s[0].stale then [] else [s[0]], Fresh(s[1..]), Fresh(t));
    }
  }

  lemma {:induction false} AttrsConcat<A>(s: seq<PathEntry<A>>, t: seq<PathEntry<A>>)
    ensures AttrsOf(s + t) == AttrsOf(s) + AttrsOf(t)
  {
    if s == [] {
      assert s + t == t;
    } else {
      assert (s + t)[1..] == s[1..] + t;
      AttrsConcat(s[1..], t);
    }
  }

  lemma AttrsCons<A>(e: PathEntry<A>, s: seq<PathEntry<A>>)
    ensures AttrsOf([e] + s) == multiset{e.attrs} + AttrsOf(s)
  {
    assert ([e] + s)[1..] == s;
  }

  lemma AttrsSnoc<A>(s: seq<PathEntry<A>>, e: PathEntry<A>)
    ensures AttrsOf(s + [e]) == AttrsOf(s) + multiset{e.attrs}
  {
    AttrsConcat(s, [e]);
    assert [e][1..] == [];
  }

  /** How a sequence falls apart around position `i`. */
  lemma SplitAttrs<A>(s: seq<PathEntry<A>>, i: nat)
    requires i < |s|
    ensures AttrsOf(s) == AttrsOf(s[..i]) + multiset{s[i].attrs} + AttrsOf(s[i + 1..])
  {
    AttrsConcat(s[..i], s[i..]);
    assert s[..i] + s[i..] == s;
    assert s[i..][1..] == s[i + 1..];
  }

  lemma AttrIn<A>(s: seq<PathEntry<A>>, i: nat)
    requires i < |s|
    ensures s[i].attrs in AttrsOf(s)
  {
    SplitAttrs(s, i);
  }

  lemma SplitFresh<A>(s: seq<PathEntry<A>>, i: nat)
    requires i < |s|
    ensures Fresh(s) == Fresh(s[..i]) + (if s[i].stale then [] else [s[i]]) + Fresh(s[i + 1..])
  {
    var head, tail := s[..i], s[i..];
    assert s == head + tail && tail[0] == s[i] && tail[1..] == s[i + 1..];
    FreshConcat(head, tail);
    var here := if s[i].stale then [] else [s[i]];
    assert Fresh(tail) == here + Fresh(tail[1..]);
    Assoc(Fresh(head), here, Fresh(tail[1..]));
  }

  lemma Assoc<T>(a: seq<T>, b: seq<T>, c: seq<T>)
    ensures a + (b + c) == a + b + c
  {
  }

  lemma {:induction false} FreshMember<A>(s: seq<PathEntry<A>>, e: PathEntry<A>)
    ensures e in Fresh(s) <==> e in s && !e.stale
  {
    if s != [] {
      FreshMember(s[1..], e);
      assert s == [s[0]] + s[1..];
    }
  }

  lemma {:induction false} FreshNothingStale<A>(s: seq<PathEntry<A>>)
    ensures FirstStale(s) == |s| <==> Fresh(s) == s
    ensures FirstStale(s) == |s| <==> |Fresh(s)| == |s|
    ensures FirstStale(Fresh(s)) == |Fresh(s)|
  {
    if s != [] {
      FreshNothingStale(s[1..]);
      assert s == [s[0]] + s[1..];
      var t := Fresh(s[1..]);
      if !s[0].stale {
        assert ([s[0]] + t)[1..] == t;
        assert Fresh(s) == s <==> t == s[1..];
      }
    }
  }

  // ---- Conservation of references -----------------------------------------------------------

  lemma PutAttrs<A>(s: seq<PathEntry<A>>, i: nat, e: PathEntry<A>)
    requires i <= |s|
    ensures i < |s| ==> AttrsOf(Put(s, i, e)) + multiset{s[i].attrs} == AttrsOf(s) + multiset{e.attrs}
    ensures i == |s| ==> AttrsOf(Put(s, i, e)) == AttrsOf(s) + multiset{e.attrs}
  {
    var r := Put(s, i, e);
    SplitAttrs(r, i);
    assert r[..i] == s[..i];
    if i < |s| {
      SplitAttrs(s, i);
      assert r[i + 1..] == s[i + 1..];
    } else {
      assert s[..i] == s;
    }
  }

  lemma WithoutAttrs<A>(s: seq<PathEntry<A>>, i: nat)
    requires i < |s|
    ensures AttrsOf(s) == AttrsOf(Without(s, i)) + multiset{s[i].attrs}
  {
    SplitAttrs(s, i);
    AttrsConcat(s[..i], s[i + 1..]);
  }

  lemma WithoutStale<A>(s: seq<PathEntry<A>>, i: nat)
    requires i < |s| && s[i].stale
    ensures Fresh(Without(s, i)) == Fresh(s)
  {
    SplitFresh(s, i);
    FreshConcat(s[..i], s[i + 1..]);
  }

  // ---- Slot laws ------------------------------------------------------------------------------

  lemma SetKeepsIDsUnique<A>(s: seq<PathEntry<A>>, id: uint32, attrs: A, stale: bool)
    requires UniqueIDs(s)
    ensures UniqueIDs(SetPath(s, id, attrs, stale))
  {
  }

  lemma DeleteKeepsIDsUnique<A>(s: seq<PathEntry<A>>, id: uint32)
    requires UniqueIDs(s)
    ensures UniqueIDs(DeletePath(s, id))
  {
  }

  lemma MarkKeepsIDsUnique<A>(s: seq<PathEntry<A>>)
    requires UniqueIDs(s)
    ensures UniqueIDs(MarkStale(s))
  {
  }

  /** Path IDs stay unique under every edit. */
  lemma EditsKeepIDsUnique<A>(s: seq<PathEntry<A>>, id: uint32, attrs: A, stale: bool)
    requires UniqueIDs(s)
    ensures UniqueIDs(SetPath(s, id, attrs, stale))
    ensures UniqueIDs(DeletePath(s, id))
    ensures UniqueIDs(MarkStale(s))
    ensures UniqueIDs(Fresh(s))
  {
    SetKeepsIDsUnique(s, id, attrs, stale);
    DeleteKeepsIDsUnique(s, id);
    FreshKeepsIDsUnique(s);
  }

  lemma {:induction false} FreshKeepsIDsUnique<A>(s: seq<PathEntry<A>>)
    requires UniqueIDs(s)
    ensures UniqueIDs(Fresh(s))
  {
    if s != [] {
      assert forall i, j :: 0 <= i < j < |s[1..]| ==> s[1..][i] == s[i + 1] && s[1..][j] == s[j + 1];
      FreshKeepsIDsUnique(s[1..]);
      forall j | 0 <= j < |Fresh(s[1..])| ensures Fresh(s[1..])[j].pathID != s[0].pathID {
        FreshMember(s[1..], Fresh(s[1..])[j]);
      }
    }
  }

  /** A replacement is reported exactly when the number of paths does not change, and what is
      displaced is the old path of that ID or else the first stale path, never a fresh one. */
  lemma SetPathReplaces<A>(s: seq<PathEntry<A>>, id: uint32, attrs: A, stale: bool)
    ensures |SetPath(s, id, attrs, stale)| == |s| <==> Displaced(s, id).Some?
    ensures |SetPath(s, id, attrs, stale)| == |s| + 1 <==> Displaced(s, id).None?
    ensures Displaced(s, id).None? <==> forall e :: e in s ==> e.pathID != id && !e.stale
    ensures forall i :: 0 <= i < |s| && SetPath(s, id, attrs, stale)[i] != s[i] ==>
              s[i].pathID == id || (s[i].stale && forall j :: 0 <= j < i ==> !s[j].stale)
  {
    if Displaced(s, id).Some? {
      assert s[SlotFor(s, id)] in s;
    }
  }

  /** A delete removes one path exactly when the ID is present, and otherwise changes nothing. */
  lemma DeletePathCount<A>(s: seq<PathEntry<A>>, id: uint32)
    ensures Deleted(s, id).Some? <==> exists e :: e in s && e.pathID == id
    ensures |DeletePath(s, id)| == if Deleted(s, id).Some? then |s| - 1 else |s|
    ensures Deleted(s, id).None? ==> DeletePath(s, id) == s
  {
    if Deleted(s, id).Some? { assert s[IndexOf(s, id)] in s; }
  }

  // ---- The edits spelled out, path by path ----------------------------------------------------------

  predicate Lacks<A>(s: seq<PathEntry<A>>, id: uint32)
  {
    forall i :: 0 <= i < |s| ==> s[i].pathID != id
  }

  lemma IndexIsAt<A>(a: seq<PathEntry<A>>, e: PathEntry<A>, b: seq<PathEntry<A>>)
    requires Lacks(a, e.pathID)
    ensures IndexOf(a + [e] + b, e.pathID) == |a|
  {
    var s := a + [e] + b;
    assert s[|a|] == e;
    assert forall j :: 0 <= j < |a| ==> s[j] == a[j];
  }

  /** A delete takes out the path with this ID, stale or not, and closes the gap. */
  lemma DeletePathExact<A>(a: seq<PathEntry<A>>, e: PathEntry<A>, b: seq<PathEntry<A>>)
    requires Lacks(a, e.pathID)
    ensures DeletePath(a + [e] + b, e.pathID) == a + b
    ensures Deleted(a + [e] + b, e.pathID) == Some(e.attrs)
  {
    IndexIsAt(a, e, b);
  }

  lemma DeletePathMembers<A>(s: seq<PathEntry<A>>, id: uint32, x: PathEntry<A>)
    requires UniqueIDs(s)
    ensures x in DeletePath(s, id) <==> x in s && x.pathID != id
  {
    var i := IndexOf(s, id);
    if i < |s| {
      var d := DeletePath(s, id);
      assert s == s[..i] + [s[i]] + s[i + 1..] && d == s[..i] + s[i + 1..];
      assert forall j :: i < j < |s| ==> s[j].pathID != s[i].pathID;
    }
  }

  /** An insert replaces the path of the same ID in place; without one it replaces the first stale path
      in place; without either it appends. What it stores is what it was given. */
  lemma SetPathExact<A>(a: seq<PathEntry<A>>, e: PathEntry<A>, b: seq<PathEntry<A>>, id: uint32, attrs: A, stale: bool)
    ensures e.pathID == id && Lacks(a, id) ==>
      SetPath(a + [e] + b, id, attrs, stale) == a + [PathEntry(attrs, id, stale)] + b
      && Displaced(a + [e] + b, id) == Some(e.attrs)
    ensures Lacks(a + [e] + b, id) && e.stale && (forall i :: 0 <= i < |a| ==> !a[i].stale) ==>
      SetPath(a + [e] + b, id, attrs, stale) == a + [PathEntry(attrs, id, stale)] + b
      && Displaced(a + [e] + b, id) == Some(e.attrs)
    ensures Lacks(a, id) && (forall i :: 0 <= i < |a| ==> !a[i].stale) ==>
      SetPath(a, id, attrs, stale) == a + [PathEntry(attrs, id, stale)] && Displaced(a, id) == None
  {
    var s := a + [e] + b;
    if e.pathID == id && Lacks(a, id) { IndexIsAt(a, e, b); }
    if Lacks(s, id) && e.stale && (forall i :: 0 <= i < |a| ==> !a[i].stale) {
      assert s[|a|] == e;
      assert forall j :: 0 <= j < |a| ==> s[j] == a[j];
    }
  }

  /** Marking keeps attributes, IDs and order. */
  lemma MarkStaleExact<A>(a: seq<PathEntry<A>>, e: PathEntry<A>, b: seq<PathEntry<A>>)
    ensures MarkStale<A>([]) == []
    ensures MarkStale(a + [e] + b) == MarkStale(a) + [PathEntry(e.attrs, e.pathID, true)] + MarkStale(b)
  {
  }

  /** The flush keeps exactly the paths that are not stale, in their order. */
  lemma FreshExact<A>(a: seq<PathEntry<A>>, e: PathEntry<A>, b: seq<PathEntry<A>>)
    ensures Fresh<A>([]) == []
    ensures Fresh(a + [e] + b) == Fresh(a) + (if e.stale then [] else [e]) + Fresh(b)
  {
    hide Fresh;
    FreshConcat(a + [e], b);
    FreshConcat(a, [e]);
    FreshOne(e);
  }

  lemma FreshOne<A>(e: PathEntry<A>)
    ensures Fresh<A>([]) == [] && Fresh([e]) == if e.stale then [] else [e]
  {
    assert [e][1..] == [];
  }

  /** Under unique IDs the non-stale view of a node behaves like a map from ID to attributes. */
  lemma SetPathView<A>(s: seq<PathEntry<A>>, id: uint32, attrs: A, j: uint32)
    requires UniqueIDs(s)
    ensures FreshAt(SetPath(s, id, attrs, false), j) == if j == id then Some(attrs) else FreshAt(s, j)
  {
    var r := SetPath(s, id, attrs, false);
    EditsKeepIDsUnique(s, id, attrs, false);
    var i := SlotFor(s, id);
    IndexUnique(r, i);
    if j != id && IndexOf(s, j) < |s| && IndexOf(s, j) != i {
      IndexUnique(r, IndexOf(s, j));
    }
  }

  lemma DeletePathView<A>(s: seq<PathEntry<A>>, id: uint32, j: uint32)
    requires UniqueIDs(s)
    ensures FreshAt(DeletePath(s, id), j) == if j == id then None else FreshAt(s, j)
  {
    var r := DeletePath(s, id);
    var i := IndexOf(s, id);
    var k := IndexOf(s, j);
    if i < |s| && j != id && k < |s| {
      var m := if k < i then k else k - 1;
      assert r[m] == s[k];
      assert UniqueIDs(r);
      IndexUnique(r, m);
    }
  }

  lemma MarkStaleView<A>(s: seq<PathEntry<A>>, j: uint32)
    ensures FreshAt(MarkStale(s), j) == None
    ensures Fresh(MarkStale(s)) == []
  {
    if Fresh(MarkStale(s)) != [] {
      FreshMember(MarkStale(s), Fresh(MarkStale(s))[0]);
      assert false;
    }
  }

  lemma FreshView<A>(s: seq<PathEntry<A>>, j: uint32)
    requires UniqueIDs(s)
    ensures FreshAt(Fresh(s), j) == FreshAt(s, j)
  {
    FreshKeepsIDsUnique(s);
    var r := Fresh(s);
    var i, k := IndexOf(s, j), IndexOf(r, j);
    if k < |r| {
      FreshMember(s, r[k]);
      var m :| 0 <= m < |s| && s[m] == r[k];
      IndexUnique(s, m);
    }
    if i < |s| && !s[i].stale {
      FreshMember(s, s[i]);
      var m :| 0 <= m < |r| && r[m] == s[i];
      IndexUnique(r, m);
    }
  }

  /** Path sequences with the same non-stale view are the same up to order. */
  lemma {:induction false} SameViewSamePaths<A>(s: seq<PathEntry<A>>, t: seq<PathEntry<A>>)
    requires UniqueIDs(s) && UniqueIDs(t) && Fresh(s) == s && Fresh(t) == t
    requires forall j :: FreshAt(s, j) == FreshAt(t, j)
    ensures multiset(s) == multiset(t)
  {
    forall e: PathEntry<A> ensures multiset(s)[e] == multiset(t)[e] {
      assert FreshAt(s, e.pathID) == FreshAt(t, e.pathID);
      FreshEntry(s, e);
      FreshEntry(t, e);
      AtMostOnce(s, e);
      AtMostOnce(t, e);
    }
  }

  lemma FreshEntry<A>(s: seq<PathEntry<A>>, e: PathEntry<A>)
    requires UniqueIDs(s) && Fresh(s) == s
    ensures e in s <==> !e.stale && FreshAt(s, e.pathID) == Some(e.attrs)
  {
    FreshMember(s, e);
    if e in s {
      var i :| 0 <= i < |s| && s[i] == e;
      IndexUnique(s, i);
    }
  }

  lemma {:induction false} AtMostOnce<A>(s: seq<PathEntry<A>>, e: PathEntry<A>)
    requires UniqueIDs(s)
    ensures multiset(s)[e] == if e in s then 1 else 0
  {
    if s != [] {
      assert s == [s[0]] + s[1..];
      AtMostOnce(s[1..], e);
    }
  }

  // ---- Change of representation -----------------------------------------------------------------

  /** Every edit commutes with a change of attribute representation. */
  lemma {:induction false} MapIndex<A, B>(f: A -> B, s: seq<PathEntry<A>>, id: uint32)
    ensures IndexOf(MapAttrs(f, s), id) == IndexOf(s, id)
    ensures FirstStale(MapAttrs(f, s)) == FirstStale(s)
  {
    if s != [] {
      assert MapAttrs(f, s)[1..] == MapAttrs(f, s[1..]);
      MapIndex(f, s[1..], id);
    }
  }

  lemma MapEdits<A, B>(f: A -> B, s: seq<PathEntry<A>>, id: uint32, attrs: A, stale: bool)
    ensures MapAttrs(f, SetPath(s, id, attrs, stale)) == SetPath(MapAttrs(f, s), id, f(attrs), stale)
    ensures MapAttrs(f, DeletePath(s, id)) == DeletePath(MapAttrs(f, s), id)
    ensures MapAttrs(f, MarkStale(s)) == MarkStale(MapAttrs(f, s))
  {
    MapIndex(f, s, id);
    MapPut(f, s, SlotFor(s, id), PathEntry(attrs, id, stale));
    if IndexOf(s, id) < |s| { MapWithout(f, s, IndexOf(s, id)); }
    MapMark(f, s);
  }

  lemma MapPut<A, B>(f: A -> B, s: seq<PathEntry<A>>, i: nat, e: PathEntry<A>)
    requires i <= |s|
    ensures MapAttrs(f, Put(s, i, e)) == Put(MapAttrs(f, s), i, PathEntry(f(e.attrs), e.pathID, e.stale))
  {
  }

  lemma MapWithout<A, B>(f: A -> B, s: seq<PathEntry<A>>, i: nat)
    requires i < |s|
    ensures MapAttrs(f, Without(s, i)) == Without(MapAttrs(f, s), i)
  {
  }

  lemma MapMark<A, B>(f: A -> B, s: seq<PathEntry<A>>)
    ensures MapAttrs(f, MarkStale(s)) == MarkStale(MapAttrs(f, s))
  {
  }

  lemma {:induction false} MapFresh<A, B>(f: A -> B, s: seq<PathEntry<A>>)
    ensures MapAttrs(f, Fresh(s)) == Fresh(MapAttrs(f, s))
  {
    if s != [] {
      assert MapAttrs(f, s)[1..] == MapAttrs(f, s[1..]);
      MapFresh(f, s[1..]);
      var rest := Fresh(s[1..]);
      assert MapAttrs(f, [s[0]] + rest) == MapAttrs(f, [s[0]]) + MapAttrs(f, rest);
    }
  }

  // ---- No doubling on resync ----------------------------------------------------------------------

  function SetPaths<A>(s: seq<PathEntry<A>>, routes: seq<(uint32, A)>): seq<PathEntry<A>>
  {
    if routes == [] then s
    else SetPath(SetPaths(s, routes[..|routes| - 1]), routes[|routes| - 1].0, routes[|routes| - 1].1, false)
  }

  lemma SetPathCounts<A>(s: seq<PathEntry<A>>, id: uint32, attrs: A)
    requires UniqueIDs(s) && FreshAt(s, id).None?
    ensures |Fresh(SetPath(s, id, attrs, false))| == |Fresh(s)| + 1
    ensures |SetPath(s, id, attrs, false)| == if |Fresh(s)| < |s| then |s| else |s| + 1
  {
    var i, e := SlotFor(s, id), PathEntry(attrs, id, false);
    var r := Put(s, i, e);
    FreshNothingStale(s);
    SplitFresh(r, i);
    assert r[..i] == s[..i];
    if i < |s| {
      SplitFresh(s, i);
      assert r[i + 1..] == s[i + 1..];
    } else {
      assert s[..i] == s;
    }
  }

  /** If all n paths of a prefix are stale, announcing m routes with distinct IDs leaves exactly
      max(n, m) paths, m of them fresh. */
  lemma {:induction false} NoDoubling<A>(s: seq<PathEntry<A>>, routes: seq<(uint32, A)>)
    requires UniqueIDs(s) && Fresh(s) == []
    requires forall i, j :: 0 <= i < j < |routes| ==> routes[i].0 != routes[j].0
    ensures var r := SetPaths(s, routes);
      && UniqueIDs(r)
      && |r| == (if |s| < |routes| then |routes| else |s|)
      && |Fresh(r)| == |routes|
      && (forall j :: FreshAt(r, j).Some? <==> IsAnnounced(routes, j))
  {
    if routes == [] {
      forall j ensures FreshAt(s, j).None? {
        if IndexOf(s, j) < |s| { FreshMember(s, s[IndexOf(s, j)]); }
      }
    } else {
      var n := |routes| - 1;
      NoDoubling(s, routes[..n]);
      var r := SetPaths(s, routes[..n]);
      var (id, attrs) := routes[n];
      assert FreshAt(r, id).None?;
      SetPathCounts(r, id, attrs);
      SetKeepsIDsUnique(r, id, attrs, false);
      forall j ensures FreshAt(SetPath(r, id, attrs, false), j).Some? <==> IsAnnounced(routes, j) {
        SetPathView(r, id, attrs, j);
        AnnouncedLast(routes, j);
      }
    }
  }

  ghost predicate IsAnnounced<A>(routes: seq<(uint32, A)>, id: uint32)
  {
    exists i :: 0 <= i < |routes| && routes[i].0 == id
  }

  lemma AnnouncedLast<A>(routes: seq<(uint32, A)>, id: uint32)
    requires routes != []
    ensures var n := |routes| - 1; IsAnnounced(routes, id) <==> IsAnnounced(routes[..n], id) || routes[n].0 == id
  {
    var n := |routes| - 1;
    assert forall i :: 0 <= i < n ==> routes[..n][i] == routes[i];
  }
}
