/** A trie node: child and parent links, and the path slots (one inline, the rest overflow). */
module Nodes {
  import opened Addressing
  import opened Attributes
  import opened PathSeq
  import opened Selection

  type Entry = PathEntry<RouteAttributes>

  function Held(a: RouteAttributes, id: uint32, stale: bool): Entry
  {
    PathEntry(a, id, stale)
  }

  lemma IndexIs(s: seq<Entry>, id: uint32, i: nat)
    requires i <= |s| && (i < |s| ==> s[i].pathID == id) && forall j :: 0 <= j < i ==> s[j].pathID != id
    ensures IndexOf(s, id) == i
  {
  }

  lemma FirstStaleIs(s: seq<Entry>, i: nat)
    requires i <= |s| && (i < |s| ==> s[i].stale) && forall j :: 0 <= j < i ==> !s[j].stale
    ensures FirstStale(s) == i
  {
  }

  lemma EntryView(p: seq<Entry>, i: nat)
    requires i < |p|
    ensures MapAttrs(ContentOf, p)[i] == PathEntry(ContentOf(p[i].attrs), p[i].pathID, p[i].stale)
  {
  }

  /** The accumulating loop of best-path selection. */
  method Scan(p: seq<Entry>) returns (best: RouteAttributes, id: uint32)
    requires p != []
    ensures var b := p[Best(MapAttrs(ContentOf, p))]; best == b.attrs && id == b.pathID
  {
    hide Better, MapAttrs, RouteAttributes.Content;
    ghost var s := MapAttrs(ContentOf, p);
    best, id := p[0].attrs, p[0].pathID;
    ghost var b := 0;
    for i := 1 to |p|
      invariant 0 <= b < i && best == p[b].attrs && id == p[b].pathID
      invariant b == BestOf(s, i)
    {
      EntryView(p, i);
      EntryView(p, b);
      var better := Prefer(p[i].attrs, p[i].pathID, best, id);
      if better {
        best, id, b := p[i].attrs, p[i].pathID, i;
      }
    }
  }

  class Node {
    var zero: Node?
    var one: Node?
    var parent: Node?
    var hasPath: bool
    var stale: bool
    var pathID: uint32
    var attrs: RouteAttributes?
    var extra: seq<Entry>
    ghost const key: Key  // where the node sits in its trie

    constructor (parent: Node?, ghost key: Key)
      ensures SlotsOK() && Paths() == []
      ensures zero == null && one == null && this.parent == parent && this.key == key
    {
      zero, one, this.parent, this.key := null, null, parent, key;
      hasPath, stale, pathID, attrs, extra := false, false, 0, null, [];
    }

    function Child(bit: bool): Node?
      reads this
    {
      if bit then one else zero
    }

    /** The stored paths in order: inline slot, then overflow. */
    ghost function Paths(): seq<Entry>
      reads this`hasPath, this`stale, this`pathID, this`attrs, this`extra
    {
      if hasPath && attrs != null then [Held(attrs, pathID, stale)] + extra else []
    }

    /** No inline path means nothing at all; otherwise attributes are present and IDs unique. */
    ghost predicate SlotsOK()
      reads this`hasPath, this`stale, this`pathID, this`attrs, this`extra
    {
      && (hasPath <==> attrs != null)
      && (!hasPath ==> extra == [] && !stale)
      && UniqueIDs(Paths())
    }

    method PathsCount() returns (n: int)
      requires SlotsOK()
      ensures n == |Paths()|
    {
      if !hasPath {
        return 0;
      }
      return 1 + |extra|;
    }

    method IsPathStale(id: uint32) returns (r: bool)
      requires SlotsOK()
      ensures var i := IndexOf(Paths(), id); r <==> i < |Paths()| && Paths()[i].stale
    {
      if !hasPath {
        return false;
      }
      if pathID == id {
        IndexIs(Paths(), id, 0);
        return stale;
      }
      for i := 0 to |extra|
        invariant forall j :: 0 <= j < i ==> extra[j].pathID != id
      {
        if extra[i].pathID == id {
          IndexIs(Paths(), id, i + 1);
          return extra[i].stale;
        }
      }
      IndexIs(Paths(), id, |Paths()|);
      return false;
    }

    method BestPathWithID() returns (best: RouteAttributes?, id: uint32)
      requires SlotsOK()
      ensures Paths() == [] ==> best == null
      ensures Paths() != [] ==>
        var b := Paths()[Best(MapAttrs(ContentOf, Paths()))]; best == b.attrs && id == b.pathID
    {
      if !hasPath {
        return null, 0;
      }
      if |extra| == 0 {
        return attrs, pathID;
      }
      best, id := Scan([Held(attrs, pathID, stale)] + extra);
    }

    method AllPaths() returns (res: seq<Entry>)
      requires SlotsOK()
      ensures res == Paths()
    {
      if !hasPath {
        return [];
      }
      res := [Held(attrs, pathID, stale)] + extra;
    }

    method FirstStalePathID() returns (id: uint32, ok: bool)
      requires SlotsOK()
      ensures var i := FirstStale(Paths()); (ok <==> i < |Paths()|) && (ok ==> id == Paths()[i].pathID)
    {
      if !hasPath {
        return 0, false;
      }
      if stale {
        FirstStaleIs(Paths(), 0);
        return pathID, true;
      }
      for i := 0 to |extra|
        invariant forall j :: 0 <= j < i ==> !extra[j].stale
      {
        if extra[i].stale {
          FirstStaleIs(Paths(), i + 1);
          return extra[i].pathID, true;
        }
      }
      FirstStaleIs(Paths(), |Paths()|);
      return 0, false;
    }

    method DeletePath(id: uint32) returns (oldAttrs: RouteAttributes?, found: bool)
      requires SlotsOK()
      modifies this`hasPath, this`stale, this`pathID, this`attrs, this`extra
      ensures SlotsOK() && Paths() == PathSeq.DeletePath(old(Paths()), id)
      ensures found <==> Deleted(old(Paths()), id).Some?
      ensures oldAttrs == if found then Deleted(old(Paths()), id).value else null
    {
      if !hasPath {
        return null, false;
      }
      DeleteKeepsIDsUnique(Paths(), id);
      if pathID == id {
        IndexIs(Paths(), id, 0);
        oldAttrs := attrs;
        DropInline();
        return oldAttrs, true;
      }
      for i := 0 to |extra|
        invariant forall j :: 0 <= j < i ==> extra[j].pathID != id
      {
        if extra[i].pathID == id {
          IndexIs(Paths(), id, i + 1);
          oldAttrs := extra[i].attrs;
          DropExtra(i);
          return oldAttrs, true;
        }
      }
      IndexIs(Paths(), id, |Paths()|);
      return null, false;
    }

    /** The first overflow path, if any, moves into the inline slot. */
    method DropInline()
      requires hasPath && attrs != null
      modifies this`hasPath, this`stale, this`pathID, this`attrs, this`extra
      ensures Paths() == Without(old(Paths()), 0)
      ensures (hasPath <==> attrs != null) && (!hasPath ==> extra == [] && !stale)
    {
      if |extra| > 0 {
        pathID, attrs, stale := extra[0].pathID, extra[0].attrs, extra[0].stale;
        extra := extra[1..];
      } else {
        attrs := null;
        hasPath := false;
        stale := false;
      }
    }

    method DropExtra(i: nat)
      requires hasPath && attrs != null && i < |extra|
      modifies this`extra
      ensures Paths() == Without(old(Paths()), i + 1)
    {
      extra := extra[..i] + extra[i + 1..];
    }

    method SetPath(id: uint32, a: RouteAttributes, isStale: bool) returns (oldAttrs: RouteAttributes?, replaced: bool)
      requires SlotsOK()
      modifies this`hasPath, this`stale, this`pathID, this`attrs, this`extra
      ensures SlotsOK() && hasPath && Paths() == PathSeq.SetPath(old(Paths()), id, a, isStale)
      ensures replaced <==> Displaced(old(Paths()), id).Some?
      ensures oldAttrs == if replaced then Displaced(old(Paths()), id).value else null
    {
      ghost var s := Paths();
      SetKeepsIDsUnique(s, id, a, isStale);
      oldAttrs, replaced := ReplaceByID(id, a, isStale);
      if replaced {
        return;
      }
      oldAttrs, replaced := ReplaceStale(id, a, isStale);
      if replaced {
        return;
      }
      AddPath(id, a, isStale);
    }

    /** Stage 3: a new path, inline if the node has none yet. */
    method AddPath(id: uint32, a: RouteAttributes, isStale: bool)
      requires SlotsOK()
      modifies this`hasPath, this`stale, this`pathID, this`attrs, this`extra
      ensures hasPath && attrs != null && Paths() == old(Paths()) + [Held(a, id, isStale)]
    {
      if !hasPath {
        pathID, attrs, stale, hasPath := id, a, isStale, true;
      } else {
        extra := extra + [Held(a, id, isStale)];
      }
    }

    /** Stage 1: re-announcement of an existing path ID. */
    method ReplaceByID(id: uint32, a: RouteAttributes, isStale: bool) returns (oldAttrs: RouteAttributes?,
        replaced: bool)
      requires SlotsOK()
      modifies this`stale, this`attrs, this`extra
      ensures var i := IndexOf(old(Paths()), id);
        if i < |old(Paths())| then
          && replaced && hasPath && attrs != null
          && Paths() == old(Paths())[i := Held(a, id, isStale)] && oldAttrs == old(Paths())[i].attrs
        else
          !replaced && oldAttrs == null && SlotsOK() && Paths() == old(Paths()) && hasPath == old(hasPath)
    {
      ghost var s := Paths();
      if hasPath && pathID == id {
        IndexIs(s, id, 0);
        oldAttrs := attrs;
        attrs, stale := a, isStale;
        return oldAttrs, true;
      }
      for i := 0 to |extra|
        invariant forall j :: 0 <= j < i ==> extra[j].pathID != id
        invariant Paths() == s && SlotsOK() && (hasPath ==> pathID != id) && hasPath == old(hasPath)
      {
        if extra[i].pathID == id {
          IndexIs(s, id, i + 1);
          oldAttrs := extra[i].attrs;
          extra := extra[i := Held(a, extra[i].pathID, isStale)];
          return oldAttrs, true;
        }
      }
      IndexIs(s, id, |s|);
      return null, false;
    }

    /** Stage 2: reuse of the first stale slot under a new path ID. */
    method ReplaceStale(id: uint32, a: RouteAttributes, isStale: bool) returns (oldAttrs: RouteAttributes?,
        replaced: bool)
      requires SlotsOK()
      modifies this`stale, this`pathID, this`attrs, this`extra
      ensures var i := FirstStale(old(Paths()));
        if i < |old(Paths())| then
          && replaced && hasPath && attrs != null
          && Paths() == old(Paths())[i := Held(a, id, isStale)] && oldAttrs == old(Paths())[i].attrs
        else
          !replaced && oldAttrs == null && SlotsOK() && Paths() == old(Paths()) && hasPath == old(hasPath)
    {
      ghost var s := Paths();
      if hasPath && stale {
        FirstStaleIs(s, 0);
        oldAttrs := attrs;
        pathID, attrs, stale := id, a, isStale;
        return oldAttrs, true;
      }
      for i := 0 to |extra|
        invariant forall j :: 0 <= j < i ==> !extra[j].stale
        invariant Paths() == s && SlotsOK() && !stale && hasPath == old(hasPath)
      {
        if extra[i].stale {
          FirstStaleIs(s, i + 1);
          oldAttrs := extra[i].attrs;
          extra := extra[i := Held(a, id, isStale)];
          return oldAttrs, true;
        }
      }
      FirstStaleIs(s, |s|);
      return null, false;
    }

    method MarkStale()
      requires SlotsOK()
      modifies this`stale, this`extra
      ensures SlotsOK() && Paths() == PathSeq.MarkStale(old(Paths()))
    {
      ghost var s := Paths();
      MarkKeepsIDsUnique(s);
      if hasPath {
        stale := true;
        MarkExtra();
        assert Paths() == PathSeq.MarkStale(s);
      }
    }

    method MarkExtra()
      modifies this`extra
      ensures extra == PathSeq.MarkStale(old(extra))
    {
      ghost var was := extra;
      for i := 0 to |extra|
        invariant |extra| == |was|
        invariant forall j :: 0 <= j < |was| ==> extra[j] == if j < i then was[j].(stale := true) else was[j]
      {
        extra := extra[i := extra[i].(stale := true)];
      }
    }
  }
}
