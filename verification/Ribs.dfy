/** The routing information base on the heap: root array, trie, counters.

    A ghost map from trie position to node flattens the pointer structure; every invariant is a
    statement about one node and its neighbours. */
module Ribs {
  import opened Addressing
  import opened Attributes
  import opened AttrModel
  import opened AttrTables
  import opened Enumeration
  import opened Nodes
  import opened Octets
  import opened PathSeq
  import opened Reference
  import opened RibModel
  import opened Selection
  import opened Sweeps
  import opened Tallies
  import opened Tries
  import opened Walks

  class Rib {
    const family: Family
    const attrTable: AttrTable
    var root: array<Node?>
    var count: int
    var pathCount: int
    var nodeCount: int
    var masks: map<int, int>
    ghost var nodes: Trie
    ghost var content: Content

    /** Structure and stored paths. */
    ghost predicate Shape()
      reads this, root, nodes.Values
    {
      Linked(nodes) && Rooted(family, root, nodes) && Stored(nodes, content) && nodeCount == |nodes|
    }

    /** The counters are exact. */
    ghost predicate Counted()
      reads this`count, this`pathCount, this`masks, this`content
    {
      CountersFor(content, count, pathCount, masks)
    }

    ghost predicate Valid()
      reads this, root, nodes.Values
    {
      Shape() && Counted() && LiveExcept(nodes, {})
    }

    constructor (family: Family, at: AttrTable)
      ensures Valid() && content == map[] && nodes == map[] && fresh(root)
      ensures this.family == family && attrTable == at
    {
      this.family, attrTable := family, at;
      root := new Node?[family.RootSize()](_ => null);
      count, pathCount, nodeCount, masks := 0, 0, 0, map[];
      nodes, content := map[], map[];
      new;
      EmptyIsCounted(masks);
    }

    /** Sets a path in the slots of `n`. */
    method SetAt(n: Node, id: uint32, a: RouteAttributes) returns (oldAttrs: RouteAttributes?, replaced: bool)
      requires Shape() && n.key in nodes && nodes[n.key] == n && LiveExcept(nodes, {n.key})
      modifies this`content, n`hasPath, n`stale, n`pathID, n`attrs, n`extra
      ensures Shape() && LiveExcept(nodes, {}) && content == RibModel.Insert(old(content), n.key, id, a)
      ensures replaced <==> Displaced(At(old(content), n.key), id).Some?
      ensures oldAttrs == if replaced then Displaced(At(old(content), n.key), id).value else null
    {
      hide Linked, Rooted, Node.SlotsOK, Node.Paths, Stored, StoredBut, Displaced, PathSeq.SetPath, With;
      ghost var k, m := n.key, content;
      NotElsewhere(nodes, nodes - {k}, k);
      StoredSplit(nodes, m, k);
      oldAttrs, replaced := n.SetPath(id, a, false);
      content := RibModel.Insert(m, k, id, a);
      StoredJoin(nodes, m, k, n.Paths());
      LiveJoin(nodes, k, {});
    }

    /** What insert does once the walk has arrived: counters first, then the slot. */
    method StorePath(n: Node, mask: int, id: uint32, a: RouteAttributes)
        returns (isNew: bool, oldAttrs: RouteAttributes?, replaced: bool)
      requires Shape() && Counted() && n.key in nodes && nodes[n.key] == n && mask == Depth(n.key)
      requires LiveExcept(nodes, {n.key})
      modifies this`count, this`pathCount, this`masks, this`content
      modifies n`hasPath, n`stale, n`pathID, n`attrs, n`extra
      ensures Valid() && content == RibModel.Insert(old(content), n.key, id, a)
      ensures isNew <==> n.key !in old(content)
      ensures replaced <==> Displaced(At(old(content), n.key), id).Some?
      ensures oldAttrs == if replaced then Displaced(At(old(content), n.key), id).value else null
    {
      hide Linked, Rooted, Stored, CountersFor, Node.Paths, Node.SlotsOK, Displaced, PathSeq.SetPath, LiveExcept;
      ghost var k, m := n.key, content;
      ghost var s := PathSeq.SetPath(At(m, k), id, a, false);
      NodeHolds(nodes, m, k);
      SetPathReplaces(At(m, k), id, a, false);
      CountersAfter(m, k, s, count, pathCount, masks);
      isNew := false;
      if !n.hasPath {
        count := count + 1;
        masks := masks[mask := MaskCount(masks, mask) + 1];
        isNew := true;
      }
      oldAttrs, replaced := SetAt(n, id, a);
      if !replaced {
        pathCount := pathCount + 1;
      }
    }

    /** The array entry for a first octet, created on first use. */
    method RootEntry(octet: bv8) returns (n: Node)
      requires Shape() && LiveExcept(nodes, {}) && family.Admits(octet) && family.Indexable(octet)
      modifies this`nodes, this`nodeCount, root
      ensures Shape() && Root(octet) in nodes && n == nodes[Root(octet)] && n.key == Root(octet)
      ensures LiveExcept(nodes, {n.key})
      ensures forall k :: k in old(nodes) ==> k in nodes && nodes[k] == old(nodes)[k]
      ensures fresh(nodes.Values - old(nodes.Values))
    {
      hide Linked, Rooted, Stored, LiveExcept, Family.Admits, Family.Indexable, Family.IndexOf, IsValidV4;
      ghost var k := Root(octet);
      RootSlot(family, root, nodes, octet);
      LiveSplit(nodes, k);
      var i := family.IndexOf(octet);
      if root[i] == null {
        n := AddRoot(i, octet);
      } else {
        n := root[i];
        KeyAt(nodes, k);
      }
    }

    /** The creation of an array entry. */
    method AddRoot(i: nat, octet: bv8) returns (n: Node)
      requires Shape() && LiveExcept(nodes, {}) && family.Admits(octet)
      requires family.Indexable(octet) && i == family.IndexOf(octet) && Root(octet) !in nodes
      modifies this`nodes, this`nodeCount, root
      ensures Shape() && nodes == old(nodes)[Root(octet) := n] && n.key == Root(octet) && fresh(n)
      ensures LiveExcept(nodes, {n.key})
    {
      hide *;
      ghost var k, t := Root(octet), nodes;
      ValidParts();
      StoredInside(t, content);
      n := LinkRoot(i, octet);
      nodeCount := nodeCount + 1;
      StoredAfter(t, nodes, content, k);
      LiveAfter(t, nodes, k);
      ValidParts();
    }

    /** Puts a new empty node into the root array. */
    method LinkRoot(i: nat, octet: bv8) returns (n: Node)
      requires Linked(nodes) && Rooted(family, root, nodes) && family.Admits(octet)
      requires family.Indexable(octet) && i == family.IndexOf(octet) && Root(octet) !in nodes
      modifies this`nodes, root
      ensures Linked(nodes) && Rooted(family, root, nodes) && nodes == old(nodes)[Root(octet) := n]
      ensures fresh(n) && n.key == Root(octet) && n.SlotsOK() && n.Paths() == [] && n.zero == null && n.one == null
    {
      ghost var k, t := Root(octet), nodes;
      n := new Node(null, k);
      assert Linked(t);
      hide Linked;
      root[i] := n;
      nodes := nodes[k := n];
      RootLinks(t, nodes, k);
      RootFilled(family, root, t, nodes, octet);
    }

    /** The eight bits of octet `i`, stopping early at the mask. */
    method CreateOctet(from: Node, addr: seq<bv8>, i: nat, mask: nat)
        returns (n: Node, arrived: bool, ghost at: nat)
      requires Shape() && |addr| == family.Octets() && 1 <= i && 8 * i + 8 <= family.MaxLen() &&
          8 * i < mask <= family.MaxLen()
      requires from.key == KeyOf(addr, 8 * i) && from.key in nodes && nodes[from.key] == from
      requires LiveExcept(nodes, {from.key})
      modifies this`nodes, this`nodeCount, nodes.Values`zero, nodes.Values`one
      ensures at == (if arrived then mask else 8 * i + 8) <= mask && (!arrived ==> at < mask)
      ensures Shape() && n.key == KeyOf(addr, at) && n.key in nodes && nodes[n.key] == n
      ensures LiveExcept(nodes, {n.key})
      ensures forall k :: k in old(nodes) ==> k in nodes && nodes[k] == old(nodes)[k]
      ensures fresh(nodes.Values - old(nodes.Values))
    {
      hide Linked, Rooted, Stored, LiveExcept, KeyOf, BitAt;
      n := from;
      var bitCount := 8 * i + 1;
      var bits := IntToBinBitwise(addr[i]);
      for j := 0 to 8
        invariant bitCount == 8 * i + j + 1 <= mask
        invariant Shape() && n.key == KeyOf(addr, 8 * i + j) && n.key in nodes && nodes[n.key] == n
        invariant LiveExcept(nodes, {n.key})
        invariant forall k :: k in old(nodes) ==> k in nodes && nodes[k] == old(nodes)[k]
        invariant fresh(nodes.Values - old(nodes.Values))
      {
        KeyStep(addr, i, j);
        n := StepCreate(n, bits[j]);
        if bitCount == mask {
          return n, true, mask;
        }
        bitCount := bitCount + 1;
      }
      return n, false, 8 * i + 8;
    }

    /** The insert walk: one bit per level, creating what is missing, stopping at the mask. */
    method FindOrCreate(addr: seq<bv8>, mask: nat) returns (n: Node)
      requires Shape() && LiveExcept(nodes, {}) && |addr| == family.Octets() && InRange(family, mask)
      requires family.Admits(addr[0]) && family.Indexable(addr[0])
      modifies this`nodes, this`nodeCount, root, nodes.Values`zero, nodes.Values`one
      ensures Shape() && n.key == KeyOf(addr, mask) && n.key in nodes && nodes[n.key] == n
      ensures LiveExcept(nodes, {n.key})
      ensures forall k :: k in old(nodes) ==> k in nodes && nodes[k] == old(nodes)[k]
      ensures fresh(nodes.Values - old(nodes.Values))
    {
      hide Linked, Rooted, Stored, LiveExcept, KeyOf;
      KeyAtRoot(addr);
      n := RootEntry(addr[0]);
      if mask == 8 {
        return;
      }
      var i := 1;
      var arrived := false;
      ghost var at := 8;
      while !arrived
        invariant 1 <= i && at == (if arrived then mask else 8 * i) && (!arrived ==> at < mask)
        invariant Shape() && n.key == KeyOf(addr, at) && n.key in nodes && nodes[n.key] == n
        invariant LiveExcept(nodes, {n.key})
        invariant forall k :: k in old(nodes) ==> k in nodes && nodes[k] == old(nodes)[k]
        invariant fresh(nodes.Values - old(nodes.Values))
        decreases !arrived, mask - 8 * i
      {
        WholeOctets(family, i, mask);
        n, arrived, at := CreateOctet(n, addr, i, mask);
        i := i + 1;
      }
    }

    /** The trie half of an insert: the walk, then the slot. */
    method InsertInTrie(addr: seq<bv8>, mask: nat, id: uint32, a: RouteAttributes)
        returns (isNew: bool, oldAttrs: RouteAttributes?, replaced: bool)
      requires Valid() && |addr| == family.Octets() && InRange(family, mask) && family.Admits(addr[0])
      modifies this, root, nodes.Values`zero, nodes.Values`one
      modifies nodes.Values`hasPath, nodes.Values`stale, nodes.Values`pathID, nodes.Values`attrs, nodes.Values`extra
      ensures Valid() && root == old(root) && fresh(nodes.Values - old(nodes.Values))
      ensures content == RibModel.Insert(old(content), KeyOf(addr, mask), id, a)
      ensures isNew <==> KeyOf(addr, mask) !in old(content)
      ensures var d := Displaced(At(old(content), KeyOf(addr, mask)), id);
        (replaced <==> d.Some?) && oldAttrs == if replaced then d.value else null
    {
      hide Linked, Rooted, Stored, LiveExcept, CountersFor, KeyOf, RibModel.Insert, Displaced;
      OctetSlot(family, addr[0]);
      var n := FindOrCreate(addr, mask);
      isNew, oldAttrs, replaced := StorePath(n, mask, id, a);
    }

    /** Insert with the RIB lock held. `others` are the references the table holds for anyone else:
        other RIBs, operations in progress, detached tries. They are untouched. */
    method InsertUnlocked(route: Route<RouteAttributes?>, ghost others: multiset<RouteAttributes>)
        returns (isNew: bool, ghost p: RouteAttributes?)
      requires Valid() && attrTable.Valid() && route.prefix.addr.family == family
      requires Counts(attrTable.Model(), Occurrences(content) + others)
      requires Accepts(family, route.prefix) ==> |Occurrences(content) + others| + 1 < TWO_32
      modifies this, root, nodes.Values`zero, nodes.Values`one
      modifies nodes.Values`hasPath, nodes.Values`stale, nodes.Values`pathID, nodes.Values`attrs, nodes.Values`extra
      modifies attrTable, attrTable.live`refCount
      ensures Valid() && attrTable.Valid() && root == old(root)
      ensures fresh(nodes.Values - old(nodes.Values)) && fresh(attrTable.live - old(attrTable.live))
      ensures Counts(attrTable.Model(), Occurrences(content) + others)
      ensures !Accepts(family, route.prefix) ==>
        p == null && !isNew && content == old(content) && attrTable.Model() == old(attrTable.Model())
      ensures Accepts(family, route.prefix) ==>
        && p != null && p.Content() == (if route.attributes == null then EMPTY else route.attributes.Content())
        && content == RibModel.Insert(old(content), KeyOfPrefix(route.prefix), route.pathID, p)
        && (isNew <==> KeyOfPrefix(route.prefix) !in old(content))
    {
      isNew, p := false, null;
      var mask := route.prefix.bits;
      if mask < 8 || mask > family.MaxLen() {
        return;
      }
      var addr := route.prefix.addr.bytes;
      if !family.Admits(addr[0]) {
        return;
      }
      isNew, p := InsertAccepted(addr, mask, route.pathID, route.attributes, others);
    }

    /** Reference taken, trie edited, displaced reference dropped: three steps, the first and last
        inside the table's own lock. */
    method InsertAccepted(addr: seq<bv8>, mask: nat, id: uint32, attributes: RouteAttributes?,
                          ghost others: multiset<RouteAttributes>) returns (isNew: bool, ghost p: RouteAttributes)
      requires Valid() && |addr| == family.Octets() && InRange(family, mask) && 8 <= mask <= 8 * |addr| &&
          family.Admits(addr[0])
      requires attrTable.Valid()
      requires Counts(attrTable.Model(), Occurrences(content) + others)
      requires |Occurrences(content) + others| + 1 < TWO_32
      modifies this, root, nodes.Values`zero, nodes.Values`one
      modifies nodes.Values`hasPath, nodes.Values`stale, nodes.Values`pathID, nodes.Values`attrs, nodes.Values`extra
      modifies attrTable, attrTable.live`refCount
      ensures Valid() && attrTable.Valid() && root == old(root)
      ensures fresh(nodes.Values - old(nodes.Values)) && fresh(attrTable.live - old(attrTable.live))
      ensures Counts(attrTable.Model(), Occurrences(content) + others)
      ensures p.Content() == if attributes == null then EMPTY else attributes.Content()
      ensures content == RibModel.Insert(old(content), KeyOf(addr, mask), id, p)
      ensures isNew <==> KeyOf(addr, mask) !in old(content)
    {
      hide *;
      var dedupAttr := attrTable.GetOrInsert(attributes, Occurrences(content) + others);
      p := dedupAttr;
      isNew := StoreAndRelease(addr, mask, id, dedupAttr, others);
    }

    /** The trie edit with a reference in hand, then the displaced reference. */
    method StoreAndRelease(addr: seq<bv8>, mask: nat, id: uint32, a: RouteAttributes,
                           ghost others: multiset<RouteAttributes>) returns (isNew: bool)
      requires Valid() && |addr| == family.Octets() && InRange(family, mask) && 8 <= mask <= 8 * |addr| &&
          family.Admits(addr[0])
      requires attrTable.Valid() && Counts(attrTable.Model(), Occurrences(content) + others + multiset{a})
      modifies this, root, nodes.Values`zero, nodes.Values`one
      modifies nodes.Values`hasPath, nodes.Values`stale, nodes.Values`pathID, nodes.Values`attrs, nodes.Values`extra
      modifies attrTable, attrTable.live`refCount
      ensures Valid() && attrTable.Valid() && root == old(root)
      ensures fresh(nodes.Values - old(nodes.Values)) && attrTable.live <= old(attrTable.live)
      ensures Counts(attrTable.Model(), Occurrences(content) + others)
      ensures content == RibModel.Insert(old(content), KeyOf(addr, mask), id, a)
      ensures isNew <==> KeyOf(addr, mask) !in old(content)
    {
      hide *;
      ghost var m, k := content, KeyOf(addr, mask);
      var oldAttrs, replaced;
      isNew, oldAttrs, replaced := InsertInTrie(addr, mask, id, a);
      InsertBalance(m, k, id, a, others);
      if replaced {
        attrTable.Release(oldAttrs, Occurrences(m) + others + multiset{a});
      }
    }

    /** The same, as its callers see it: an insert of content into the reference map. */
    method InsertOne(route: Route<RouteAttributes?>, ghost others: multiset<RouteAttributes>) returns (isNew: bool)
      requires Valid() && attrTable.Valid() && route.prefix.addr.family == family
      requires Counts(attrTable.Model(), Occurrences(content) + others)
      requires Room(family, Contents(content), |others|, route.prefix)
      modifies this, root, nodes.Values`zero, nodes.Values`one
      modifies nodes.Values`hasPath, nodes.Values`stale, nodes.Values`pathID, nodes.Values`attrs, nodes.Values`extra
      modifies attrTable, attrTable.live`refCount
      ensures Valid() && attrTable.Valid() && root == old(root)
      ensures fresh(nodes.Values - old(nodes.Values)) && fresh(attrTable.live - old(attrTable.live))
      ensures Counts(attrTable.Model(), Occurrences(content) + others)
      ensures Contents(content) == InsertRoute(family, Contents(old(content)), Announced(route))
      ensures isNew <==> Announces(family, Contents(old(content)), Announced(route))
    {
      hide *;
      RoomFor(family, content, others, route.prefix);
      ghost var p;
      isNew, p := InsertUnlocked(route, others);
      InsertSeen(family, old(content), content, route, p);
    }

    method Insert(route: Route<RouteAttributes?>, ghost others: multiset<RouteAttributes>)
      requires Valid() && attrTable.Valid()
      requires Counts(attrTable.Model(), Occurrences(content) + others)
      requires Room(family, Contents(content), |others|, route.prefix)
      modifies this, root, nodes.Values`zero, nodes.Values`one
      modifies nodes.Values`hasPath, nodes.Values`stale, nodes.Values`pathID, nodes.Values`attrs, nodes.Values`extra
      modifies attrTable, attrTable.live`refCount
      ensures Valid() && attrTable.Valid() && root == old(root)
      ensures fresh(nodes.Values - old(nodes.Values)) && fresh(attrTable.live - old(attrTable.live))
      ensures Counts(attrTable.Model(), Occurrences(content) + others)
      ensures Contents(content) == InsertRoute(family, Contents(old(content)), Announced(route))
    {
      hide *;
      NotMine(family, Contents(content), route);
      if route.prefix.addr.family != family {
        return;
      }
      var isNew := InsertOne(route, others);
    }

    /** Several inserts under one lock; reports the prefixes that got their first path. */
    method InsertBatch(routes: seq<Route<RouteAttributes?>>, ghost others: multiset<RouteAttributes>)
        returns (newPrefixes: seq<Prefix>)
      requires Valid() && attrTable.Valid()
      requires Counts(attrTable.Model(), Occurrences(content) + others)
      requires forall i :: 0 <= i < |routes| ==>
        Room(family, InsertRoutes(family, Contents(content), Announcements(routes)[..i]), |others|, routes[i].prefix)
      modifies this, root, nodes.Values`zero, nodes.Values`one
      modifies nodes.Values`hasPath, nodes.Values`stale, nodes.Values`pathID, nodes.Values`attrs, nodes.Values`extra
      modifies attrTable, attrTable.live`refCount
      ensures Valid() && attrTable.Valid() && root == old(root)
      ensures fresh(nodes.Values - old(nodes.Values)) && fresh(attrTable.live - old(attrTable.live))
      ensures Counts(attrTable.Model(), Occurrences(content) + others)
      ensures Contents(content) == InsertRoutes(family, Contents(old(content)), Announcements(routes))
      ensures newPrefixes == NewPrefixes(family, Contents(old(content)), Announcements(routes))
    {
      hide *;
      ghost var m, rs := Contents(content), Announcements(routes);
      BatchStart(family, m, rs, []);
      newPrefixes := [];
      for i := 0 to |routes|
        invariant Valid() && attrTable.Valid() && root == old(root)
        invariant fresh(nodes.Values - old(nodes.Values)) && fresh(attrTable.live - old(attrTable.live))
        invariant Counts(attrTable.Model(), Occurrences(content) + others)
        invariant Contents(content) == InsertRoutes(family, m, rs[..i])
        invariant newPrefixes == NewPrefixes(family, m, rs[..i])
      {
        InsertNext(family, m, routes, i);
        NotMine(family, Contents(content), routes[i]);
        var rt := routes[i];
        if rt.prefix.addr.family == family {
          var isNew := InsertOne(rt, others);
          if isNew {
            newPrefixes := newPrefixes + [rt.prefix];
          }
        }
      }
      assert rs[..|routes|] == rs;
    }

    // ---- Exact lookup walk ----------------------------------------------------------------------

    /** The node for a prefix, or null. A missing child ends the walk. */
    method Locate(addr: seq<bv8>, mask: nat) returns (n: Node?)
      requires Shape() && |addr| == family.Octets() && InRange(family, mask) && 8 <= mask <= 8 * |addr| &&
          family.Indexable(addr[0])
      ensures n == NodeAt(nodes, KeyOf(addr, mask))
    {
      hide Linked, Rooted, Stored, KeyOf;
      KeyAtRoot(addr);
      RootSlot(family, root, nodes, addr[0]);
      n := root[family.IndexOf(addr[0])];
      ghost var d := 8;
      var i := 1;
      var arrived := mask == 8;
      while n != null && !arrived
        invariant 1 <= i && 8 <= d <= mask && n == NodeAt(nodes, KeyOf(addr, d))
        invariant arrived ==> d == mask
        invariant !arrived && n != null ==> d == 8 * i < mask
        decreases mask - d, n != null
      {
        WholeOctets(family, i, mask);
        n, arrived, d := LocateOctet(n, addr, i, mask);
        i := i + 1;
      }
      if n == null {
        NothingBelow(nodes, addr, d, mask);
      }
    }

    method LocateOctet(from: Node, addr: seq<bv8>, i: nat, mask: nat)
        returns (n: Node?, arrived: bool, ghost d: nat)
      requires Shape() && |addr| == family.Octets() && 1 <= i && 8 * i + 8 <= 8 * |addr| && 8 * i < mask
      requires KeyOf(addr, 8 * i) in nodes && nodes[KeyOf(addr, 8 * i)] == from
      ensures 8 * i < d <= 8 * i + 8 && d <= mask && n == NodeAt(nodes, KeyOf(addr, d))
      ensures arrived ==> d == mask
      ensures n != null && !arrived ==> d == 8 * i + 8 < mask
    {
      hide Linked, Rooted, Stored, KeyOf, BitAt;
      n, d, arrived := from, 8 * i, false;
      var bitCount := 8 * i + 1;
      var bits := IntToBinBitwise(addr[i]);
      for j := 0 to 8
        invariant bitCount == 8 * i + j + 1 <= mask && d == 8 * i + j
        invariant n != null && n == NodeAt(nodes, KeyOf(addr, d))
      {
        KeyStep(addr, i, j);
        KeyAt(nodes, KeyOf(addr, d));
        ChildOf(nodes, n, bits[j]);
        n := n.Child(bits[j]);
        d := d + 1;
        if n == null {
          return;
        }
        if bitCount == mask {
          arrived := true;
          return;
        }
        bitCount := bitCount + 1;
      }
    }

    // ---- Delete -----------------------------------------------------------------------------------

    /** Removes a path from the slots of `n`, which may leave `n` empty. */
    method RemoveAt(n: Node, id: uint32) returns (oldAttrs: RouteAttributes?, found: bool)
      requires Linked(nodes) && Stored(nodes, content) && n.key in nodes && nodes[n.key] == n
      modifies this`content, n`hasPath, n`stale, n`pathID, n`attrs, n`extra
      ensures Stored(nodes, content) && content == RibModel.Delete(old(content), n.key, id)
      ensures found <==> Deleted(At(old(content), n.key), id).Some?
      ensures oldAttrs == if found then Deleted(At(old(content), n.key), id).value else null
      ensures n.hasPath <==> n.key in content
    {
      hide Linked, Rooted, Node.SlotsOK, Node.Paths, Stored, StoredBut, Deleted, PathSeq.DeletePath, With;
      ghost var k, m := n.key, content;
      NotElsewhere(nodes, nodes - {k}, k);
      StoredSplit(nodes, m, k);
      oldAttrs, found := n.DeletePath(id);
      content := RibModel.Delete(m, k, id);
      StoredJoin(nodes, m, k, n.Paths());
      NodeHolds(nodes, content, k);
    }

    /** The slot edit of a delete together with the counters. */
    method RemovePath(n: Node, mask: int, id: uint32)
        returns (oldAttrs: RouteAttributes?, found: bool, isRemoved: bool)
      requires Valid() && n.key in nodes && nodes[n.key] == n && mask == Depth(n.key)
      modifies this`count, this`pathCount, this`masks, this`content
      modifies n`hasPath, n`stale, n`pathID, n`attrs, n`extra
      ensures Shape() && Counted() && LiveExcept(nodes, {n.key})
      ensures content == RibModel.Delete(old(content), n.key, id)
      ensures found <==> Deleted(At(old(content), n.key), id).Some?
      ensures oldAttrs == if found then Deleted(At(old(content), n.key), id).value else null
      ensures isRemoved <==> n.key in old(content) && n.key !in content
      ensures !isRemoved ==> LiveExcept(nodes, {})
    {
      hide *;
      ghost var k, m := n.key, content;
      ValidParts();
      NodeHolds(nodes, m, k);
      NotElsewhere(nodes, nodes - {k}, k);
      LiveSplit(nodes, k);
      DeleteCounters(m, k, id, count, pathCount, masks);
      isRemoved := false;
      oldAttrs, found := RemoveAt(n, id);
      if found {
        isRemoved := !n.hasPath;
        CountRemoved(mask, isRemoved);
      }
      if !isRemoved { LiveJoin(nodes, k, {}); }
      ValidParts();
    }

    /** The counters after one path has gone, and with it perhaps its prefix. */
    method CountRemoved(mask: int, isRemoved: bool)
      requires !isRemoved ==> CountersFor(content, count, pathCount - 1, masks)
      requires isRemoved ==>
        CountersFor(content, count - 1, pathCount - 1, masks[mask := MaskCount(masks, mask) - 1])
      modifies this`count, this`pathCount, this`masks
      ensures CountersFor(content, count, pathCount, masks)
    {
      hide *;
      pathCount := pathCount - 1;
      if isRemoved {
        count := count - 1;
        masks := masks[mask := MaskCount(masks, mask) - 1];
      }
    }

    /** Cuts a dead leaf off its parent: whichever child slot points to it is cleared. */
    method Unlink(n: Node)
      requires Linked(nodes) && n.key in nodes && nodes[n.key] == n && n.key.Ext?
      requires n.key.up in nodes && n.parent == nodes[n.key.up] && n.zero == null && n.one == null
      modifies this`nodes, n.parent`zero, n.parent`one
      ensures Linked(nodes) && nodes == old(nodes) - {n.key}
    {
      ParentOf(nodes, n.key);
      ghost var t := nodes;
      var p := n.parent;
      if p.zero == n {
        p.zero := null;
      } else {
        p.one := null;
      }
      nodes := nodes - {n.key};
    }

    /** Prunes dead leaves upward from `n` and stops at the array entry, which the caller cleans up.
        Every node taken out is empty and childless, and none is counted twice. */
    method DeleteNode(n: Node) returns (removed: int)
      requires Linked(nodes) && Rooted(family, root, nodes) && Stored(nodes, content)
      requires n.key in nodes && nodes[n.key] == n && LiveExcept(nodes, {RootOf(n.key)} + {n.key})
      modifies this`nodes, nodes.Values`zero, nodes.Values`one
      ensures Linked(nodes) && Rooted(family, root, nodes) && Stored(nodes, content)
      ensures LiveExcept(nodes, {RootOf(n.key)})
      ensures |nodes| == |old(nodes)| - removed
      ensures Shrunk(old(nodes), nodes)
      decreases Depth(n.key)
    {
      hide Linked, Rooted, Stored, LiveExcept, OctetOfKey, Shrunk;
      ghost var k, t, r := n.key, nodes, RootOf(n.key);
      ParentOf(t, k);
      if n.parent == null {
        RootIsOwnRoot(k);
        LiveSame(t, {r} + {k}, {r});
        ShrunkSame(t);
        return 0;
      }
      if n.zero == null && n.one == null && !n.hasPath {
        RootOfUp(k);
        KeyAt(t, k.up);
        NodeHolds(t, content, k);
        LiveShrink(t, k, r);
        StoredShrink(t, content, k);
        RootedShrink(family, root, t, k);
        NotElsewhere(t, t - {k} - ({r} + {k.up}), k.up);
        LinkedIsKeyed(t);
        Unlink(n);
        ShrunkOne(t, k);
        GoneApart(t, nodes);
        ghost var u := nodes;
        removed := DeleteNode(n.parent);
        ShrunkTrans(t, u, nodes);
        return 1 + removed;
      }
      LiveJoin(t, k, {r});
      ShrunkSame(t);
      return 0;
    }

    /** Frees an array entry that has neither a path nor children. */
    method CleanRoot(octet: bv8)
      requires Linked(nodes) && Rooted(family, root, nodes) && Stored(nodes, content) && nodeCount == |nodes|
      requires LiveExcept(nodes, {Root(octet)}) && family.Indexable(octet)
      modifies this`nodes, this`nodeCount, root
      ensures Shape() && LiveExcept(nodes, {})
      ensures forall k :: k in nodes ==> k in old(nodes) && nodes[k] == old(nodes)[k]
      ensures nodes == old(nodes) || (nodes == old(nodes) - {Root(octet)} && Root(octet) !in content)
    {
      hide Linked, Rooted, Stored, LiveExcept;
      ghost var t, k := nodes, Root(octet);
      RootSlot(family, root, t, octet);
      var i := family.IndexOf(octet);
      var r := root[i];
      if r != null && r.zero == null && r.one == null && !r.hasPath {
        NodeHolds(t, content, k);
        LinkedShrink(t, k);
        StoredShrink(t, content, k);
        LiveWithout(t, k);
        EmptyRoot(i, octet);
        nodeCount := nodeCount - 1;
      } else {
        LiveRoot(t, k);
      }
    }

    method EmptyRoot(i: nat, octet: bv8)
      requires Rooted(family, root, nodes) && family.Indexable(octet) && i == family.IndexOf(octet)
      modifies this`nodes, root
      ensures Rooted(family, root, nodes) && nodes == old(nodes) - {Root(octet)}
    {
      hide Linked;
      forall j | 0 <= j < root.Length && family.OctetOf(j) == octet ensures j == i {
        SlotOctet(family, j);
      }
      OctetSlot(family, octet);
      root[i] := null;
      nodes := nodes - {Root(octet)};
    }

    /** Pruning after a prefix has lost its last path. */
    method Prune(n: Node, octet: bv8)
      requires Shape() && n.key in nodes && octet == OctetOfKey(n.key) && nodes[n.key] == n &&
          LiveExcept(nodes, {n.key})
      modifies this`nodes, this`nodeCount, root, nodes.Values`zero, nodes.Values`one
      ensures Shape() && LiveExcept(nodes, {})
      ensures forall k :: k in nodes ==> k in old(nodes) && nodes[k] == old(nodes)[k]
    {
      hide Linked, Rooted, Stored, LiveExcept;
      ghost var k := n.key;
      LiveWeaken(nodes, {k}, {RootOf(k)} + {k});
      IndexableKey(family, root, nodes, k);
      ghost var t := nodes;
      var removed := DeleteNode(n);
      nodeCount := nodeCount - removed;
      assert forall k :: k in nodes ==> k in t && nodes[k] == t[k];
      CleanRoot(octet);
    }

    /** Delete once the node is found: slot, reference, counters, pruning. */
    method DeleteLocated(n: Node, mask: int, octet: bv8, id: uint32, ghost others: multiset<RouteAttributes>)
        returns (isRemoved: bool)
      requires Valid() && n.key in nodes && nodes[n.key] == n && mask == Depth(n.key) && octet == OctetOfKey(n.key)
      requires attrTable.Valid() && Counts(attrTable.Model(), Occurrences(content) + others)
      modifies this, root, nodes.Values`zero, nodes.Values`one
      modifies nodes.Values`hasPath, nodes.Values`stale, nodes.Values`pathID, nodes.Values`attrs, nodes.Values`extra
      modifies attrTable, attrTable.live`refCount
      ensures Valid() && attrTable.Valid() && root == old(root) && attrTable.live <= old(attrTable.live)
      ensures nodes.Values <= old(nodes.Values)
      ensures Counts(attrTable.Model(), Occurrences(content) + others)
      ensures content == RibModel.Delete(old(content), n.key, id)
      ensures isRemoved <==> n.key in old(content) && n.key !in content
    {
      hide *;
      isRemoved := RemoveAndRelease(n, mask, id, others);
      if isRemoved {
        Prune(n, octet);
      }
      ValidParts();
    }

    /** Slot and counters, then the reference of the deleted path. */
    method RemoveAndRelease(n: Node, mask: int, id: uint32, ghost others: multiset<RouteAttributes>)
        returns (isRemoved: bool)
      requires Valid() && n.key in nodes && nodes[n.key] == n && mask == Depth(n.key)
      requires attrTable.Valid() && Counts(attrTable.Model(), Occurrences(content) + others)
      modifies this`count, this`pathCount, this`masks, this`content
      modifies n`hasPath, n`stale, n`pathID, n`attrs, n`extra
      modifies attrTable, attrTable.live`refCount
      ensures Shape() && Counted() && LiveExcept(nodes, {n.key})
      ensures attrTable.Valid() && attrTable.live <= old(attrTable.live)
      ensures Counts(attrTable.Model(), Occurrences(content) + others)
      ensures content == RibModel.Delete(old(content), n.key, id)
      ensures isRemoved <==> n.key in old(content) && n.key !in content
      ensures !isRemoved ==> LiveExcept(nodes, {})
    {
      hide *;
      var oldAttrs, found;
      oldAttrs, found, isRemoved := RemovePath(n, mask, id);
      DeleteBalance(old(content), n.key, id, others);
      if found {
        attrTable.Release(oldAttrs, Occurrences(old(content)) + others);
      }
    }

    /** Delete with the RIB lock held; deleting what is not stored changes nothing. */
    method DeleteUnlocked(prefix: Prefix, id: uint32, ghost others: multiset<RouteAttributes>) returns (isRemoved: bool)
      requires Valid() && attrTable.Valid() && prefix.addr.family == family
      requires Counts(attrTable.Model(), Occurrences(content) + others)
      modifies this, root, nodes.Values`zero, nodes.Values`one
      modifies nodes.Values`hasPath, nodes.Values`stale, nodes.Values`pathID, nodes.Values`attrs, nodes.Values`extra
      modifies attrTable, attrTable.live`refCount
      ensures Valid() && attrTable.Valid() && root == old(root) && attrTable.live <= old(attrTable.live)
      ensures nodes.Values <= old(nodes.Values)
      ensures Counts(attrTable.Model(), Occurrences(content) + others)
      ensures !InRange(family, prefix.bits) ==> !isRemoved && content == old(content)
      ensures InRange(family, prefix.bits) ==>
        && content == RibModel.Delete(old(content), KeyOfPrefix(prefix), id)
        && (isRemoved <==> KeyOfPrefix(prefix) in old(content) && KeyOfPrefix(prefix) !in content)
    {
      hide Linked, Rooted, Stored, Counted, LiveExcept, Consistent, Counts, Occurrences, IsValidV4, RibModel.Delete,
          KeyOf, AttrTable.Valid, AttrTable.Model;
      var mask := prefix.bits;
      if mask < 8 || mask > family.MaxLen() {
        return false;
      }
      var addr := prefix.addr.bytes;
      ghost var k := KeyOf(addr, mask);
      if !family.Indexable(addr[0]) {
        NotStored(k, id);
        return false;
      }
      var n := Locate(addr, mask);
      if n == null {
        NotStored(k, id);
        return false;
      }
      KeyAt(nodes, k);
      isRemoved := DeleteLocated(n, mask, addr[0], id, others);
    }

    method DeleteOne(w: Withdrawal, ghost others: multiset<RouteAttributes>) returns (isRemoved: bool)
      requires Valid() && attrTable.Valid() && w.prefix.addr.family == family
      requires Counts(attrTable.Model(), Occurrences(content) + others)
      modifies this, root, nodes.Values`zero, nodes.Values`one
      modifies nodes.Values`hasPath, nodes.Values`stale, nodes.Values`pathID, nodes.Values`attrs, nodes.Values`extra
      modifies attrTable, attrTable.live`refCount
      ensures Valid() && attrTable.Valid() && root == old(root) && attrTable.live <= old(attrTable.live)
      ensures nodes.Values <= old(nodes.Values)
      ensures Counts(attrTable.Model(), Occurrences(content) + others)
      ensures Contents(content) == DeleteRoute(family, Contents(old(content)), w)
      ensures isRemoved <==> Withdraws(family, Contents(old(content)), w)
    {
      hide *;
      isRemoved := DeleteUnlocked(w.prefix, w.pathID, others);
      DeleteSeen(family, old(content), content, w);
    }

    method Delete(prefix: Prefix, pathID: uint32, ghost others: multiset<RouteAttributes>)
      requires Valid() && attrTable.Valid()
      requires Counts(attrTable.Model(), Occurrences(content) + others)
      modifies this, root, nodes.Values`zero, nodes.Values`one
      modifies nodes.Values`hasPath, nodes.Values`stale, nodes.Values`pathID, nodes.Values`attrs, nodes.Values`extra
      modifies attrTable, attrTable.live`refCount
      ensures Valid() && attrTable.Valid() && root == old(root) && attrTable.live <= old(attrTable.live)
      ensures nodes.Values <= old(nodes.Values)
      ensures Counts(attrTable.Model(), Occurrences(content) + others)
      ensures Contents(content) == DeleteRoute(family, Contents(old(content)), Withdrawal(prefix, pathID))
    {
      hide *;
      NotConcerned(family, Contents(content), Withdrawal(prefix, pathID));
      if prefix.addr.family != family {
        return;
      }
      var isRemoved := DeleteOne(Withdrawal(prefix, pathID), others);
    }

    /** Several deletes under one lock; reports the prefixes that lost their last path. */
    method DeleteBatch(paths: seq<Withdrawal>, ghost others: multiset<RouteAttributes>)
        returns (removedPrefixes: seq<Prefix>)
      requires Valid() && attrTable.Valid()
      requires Counts(attrTable.Model(), Occurrences(content) + others)
      modifies this, root, nodes.Values`zero, nodes.Values`one
      modifies nodes.Values`hasPath, nodes.Values`stale, nodes.Values`pathID, nodes.Values`attrs, nodes.Values`extra
      modifies attrTable, attrTable.live`refCount
      ensures Valid() && attrTable.Valid() && root == old(root) && attrTable.live <= old(attrTable.live)
      ensures nodes.Values <= old(nodes.Values)
      ensures Counts(attrTable.Model(), Occurrences(content) + others)
      ensures Contents(content) == DeleteRoutes(family, Contents(old(content)), paths)
      ensures removedPrefixes == RemovedPrefixes(family, Contents(old(content)), paths)
    {
      hide *;
      ghost var m := Contents(content);
      BatchStart(family, m, [], paths);
      removedPrefixes := [];
      for i := 0 to |paths|
        invariant Valid() && attrTable.Valid() && root == old(root) && attrTable.live <= old(attrTable.live)
        invariant nodes.Values <= old(nodes.Values)
        invariant Counts(attrTable.Model(), Occurrences(content) + others)
        invariant Contents(content) == DeleteRoutes(family, m, paths[..i])
        invariant removedPrefixes == RemovedPrefixes(family, m, paths[..i])
      {
        DeleteNext(family, m, paths, i);
        NotConcerned(family, Contents(content), paths[i]);
        if paths[i].prefix.addr.family == family {
          var isRemoved := DeleteOne(paths[i], others);
          if isRemoved {
            removedPrefixes := removedPrefixes + [paths[i].prefix];
          }
        }
      }
      assert paths[..|paths|] == paths;
    }

    lemma ValidParts()
      ensures Valid() <==> Shape() && Counted() && LiveExcept(nodes, {})
      ensures Shape() <==>
        Linked(nodes) && Rooted(family, root, nodes) && Stored(nodes, content) && nodeCount == |nodes|
      ensures Shape() ==> root.Length == family.RootSize()
      ensures Counted() <==> CountersFor(content, count, pathCount, masks)
    {
    }

    /** A position without a node, or under an octet never admitted, stores nothing. */
    lemma NotStored(k: Key, id: uint32)
      requires Shape() && (k !in nodes || !family.Admits(OctetOfKey(k)) || !family.Indexable(OctetOfKey(k)))
      ensures k !in content && RibModel.Delete(content, k, id) == content
    {
      StoredInside(nodes, content);
      if k in nodes { IndexableKey(family, root, nodes, k); }
    }

    /** Hangs a new empty leaf below `n`. */
    method LinkLeaf(n: Node, bit: bool) returns (c: Node)
      requires Linked(nodes) && n.key in nodes && nodes[n.key] == n && Ext(n.key, bit) !in nodes
      modifies this`nodes, n`zero, n`one
      ensures Linked(nodes) && nodes == old(nodes)[Ext(n.key, bit) := c]
      ensures fresh(c) && c.SlotsOK() && c.Paths() == [] && c.zero == null && c.one == null
      ensures n.Child(bit) == c && n.Child(!bit) == old(n.Child(!bit))
    {
      ghost var k := Ext(n.key, bit);
      NoOrphans(nodes, k);
      c := new Node(n, k);
      if bit {
        n.one := c;
      } else {
        n.zero := c;
      }
      nodes := nodes[k := c];
    }

    /** One step of the insert walk: the child for `bit`, created on first use. */
    method StepCreate(n: Node, bit: bool) returns (c: Node)
      requires Shape() && n.key in nodes && nodes[n.key] == n && Depth(n.key) < family.MaxLen()
      requires LiveExcept(nodes, {n.key})
      modifies this`nodes, this`nodeCount, n`zero, n`one
      ensures Shape() && Ext(n.key, bit) in nodes && c == nodes[Ext(n.key, bit)] && c.key == Ext(n.key, bit)
      ensures LiveExcept(nodes, {c.key})
      ensures forall k :: k in old(nodes) ==> k in nodes && nodes[k] == old(nodes)[k]
      ensures fresh(nodes.Values - old(nodes.Values))
    {
      hide Linked, Rooted, Stored, Node.SlotsOK, Node.Paths;
      ChildOf(nodes, n, bit);
      if n.Child(bit) == null {
        ghost var k := Ext(n.key, bit);
        StoredInside(nodes, content);
        c := LinkLeaf(n, bit);
        nodeCount := nodeCount + 1;
        RootedAfter(family, root, old(nodes), nodes, k);
        StoredAfter(old(nodes), nodes, content, k);
      } else {
        c := n.Child(bit);
      }
    }

    // ---- Stale marking ------------------------------------------------------------------------------

    /** Marks every path of one node. */
    method MarkHere(n: Node)
      requires Stored(nodes, content) && Linked(nodes) && n.key in nodes && nodes[n.key] == n
      modifies this`content, n`stale, n`extra
      ensures Stored(nodes, content)
      ensures content == With(old(content), n.key, MarkStale(At(old(content), n.key)))
    {
      hide Linked, Node.SlotsOK, Node.Paths, Stored, StoredBut, PathSeq.MarkStale, With;
      ghost var k, m := n.key, content;
      NotElsewhere(nodes, nodes - {k}, k);
      StoredSplit(nodes, m, k);
      n.MarkStale();
      content := With(m, k, MarkStale(At(m, k)));
      StoredJoin(nodes, m, k, n.Paths());
    }

    method MarkNodeStale(n: Node)
      requires Linked(nodes) && Rooted(family, root, nodes) && Stored(nodes, content)
      requires n.key in nodes && nodes[n.key] == n
      modifies this`content, nodes.Values`stale, nodes.Values`extra
      ensures Stored(nodes, content) && content == MarkWhere(old(content), Below(n.key))
      decreases family.MaxLen() - Depth(n.key)
    {
      hide *;
      ghost var k, m := n.key, content;
      NodeHolds(nodes, m, k);
      MarkSubtree(m, k);
      MarkHere(n);
      ChildIn(nodes, content, n, false);
      if n.zero != null {
        KeyDepth(family, root, nodes, Ext(k, false));
        MarkNodeStale(n.zero);
      }
      ChildIn(nodes, content, n, true);
      if n.one != null {
        KeyDepth(family, root, nodes, Ext(k, true));
        MarkNodeStale(n.one);
      }
    }

    /** Marks every stored path stale. The early return is sound because the path count is exact. */
    method MarkAllStale()
      requires Valid()
      modifies this`content, nodes.Values`stale, nodes.Values`extra
      ensures Valid() && content == RibModel.MarkAllStale(old(content))
    {
      hide *;
      ghost var m := content;
      ValidParts();
      if pathCount == 0 {
        NoPathsNoContent(nodes, m, count, pathCount, masks);
        return;
      }
      StartMark(nodes, family, m);
      for i := 0 to root.Length
        invariant Linked(nodes) && Rooted(family, root, nodes) && Stored(nodes, content)
        invariant LiveExcept(nodes, {})
        invariant root.Length == family.RootSize()
        invariant content == MarkWhere(m, FirstRoots(family, i))
      {
        RootBelow(family, root, nodes, content, i);
        MarkNextRoot(family, m, i);
        if root[i] != null {
          MarkNodeStale(root[i]);
        }
      }
      AllRootsMarked(family, root, nodes, m);
      MarkCounters(m, count, pathCount, masks);
      ValidParts();
    }

    // ---- Stale removal ------------------------------------------------------------------------------

    /** Deletes the first stale path of `n`, if there is one, and hands its reference to the tally. */
    method DropNext(n: Node, tally: AttrTally) returns (dropped: bool)
      requires Linked(nodes) && Stored(nodes, content) && n.key in nodes && nodes[n.key] == n && tally.Valid()
      modifies this`content, n`hasPath, n`stale, n`pathID, n`attrs, n`extra, tally
      ensures Stored(nodes, content) && tally.Valid()
      ensures var s := At(old(content), n.key); dropped <==> FirstStale(s) < |s|
      ensures !dropped ==> content == old(content) && tally.added == old(tally.added)
      ensures dropped ==>
        var s := At(old(content), n.key); var id := s[FirstStale(s)].pathID; var d := Deleted(s, id);
        d.Some? && content == RibModel.Delete(old(content), n.key, id) &&
            tally.added == old(tally.added) + multiset{d.value}
    {
      hide *;
      NodeHolds(nodes, content, n.key);
      var pathID, ok := n.FirstStalePathID();
      if !ok {
        return false;
      }
      DeletedIsThere(At(content, n.key));
      var oldAttrs, found := RemoveAt(n, pathID);
      tally.Add(oldAttrs);
      return true;
    }

    /** Deletes stale paths of `n` one by one, first one first, handing each reference to the tally. */
    method DropSlots(n: Node, tally: AttrTally) returns (deleted: bool)
      requires Linked(nodes) && Stored(nodes, content) && n.key in nodes && nodes[n.key] == n && tally.Valid()
      modifies this`content, this`pathCount, n`hasPath, n`stale, n`pathID, n`attrs, n`extra, tally
      ensures Stored(nodes, content) && tally.Valid()
      ensures content == With(old(content), n.key, Fresh(At(old(content), n.key)))
      ensures Occurrences(content) + tally.added == Occurrences(old(content)) + old(tally.added)
      ensures pathCount == old(pathCount) - |At(old(content), n.key)| + |At(content, n.key)|
      ensures deleted <==> At(content, n.key) != At(old(content), n.key)
      ensures n.hasPath <==> n.key in content
    {
      hide *;
      ghost var k, m := n.key, content;
      deleted := false;
      NodeHolds(nodes, m, k);
      SweepStart(m, k);
      while true
        invariant Linked(nodes) && Stored(nodes, content) && tally.Valid()
        invariant content == With(m, k, At(content, k)) && Fresh(At(content, k)) == Fresh(At(m, k))
        invariant Occurrences(content) + tally.added == Occurrences(m) + old(tally.added)
        invariant pathCount == old(pathCount) - |At(m, k)| + |At(content, k)|
        invariant |At(content, k)| <= |At(m, k)| && (deleted <==> |At(content, k)| < |At(m, k)|)
        decreases |At(content, k)|
      {
        ghost var c := content;
        UniqueAt(nodes, c, k);
        var dropped := DropNext(n, tally);
        if !dropped {
          break;
        }
        SweepStep(c, m, k, At(c, k)[FirstStale(At(c, k))].pathID);
        pathCount := pathCount - 1;
        deleted := true;
      }
      SweepEnd(content, m, k);
      NodeHolds(nodes, content, k);
    }

    /** Everything but the liveness of one array entry, which its sweep may leave empty. */
    ghost predicate Core(r: Key)
      reads this, root, nodes.Values
    {
      Shape() && Counted() && LiveExcept(nodes, {r})
    }

    lemma CoreParts(r: Key)
      ensures Core(r) <==> Shape() && Counted() && LiveExcept(nodes, {r})
    {
    }

    /** A prefix that has just lost its last path leaves the counters, and its node the trie. */
    method RetirePrefix(n: Node, depth: nat)
      requires Linked(nodes) && Rooted(family, root, nodes) && Stored(nodes, content) && nodeCount == |nodes|
      requires CountersFor(content, count - 1, pathCount, masks[depth := MaskCount(masks, depth) - 1])
      requires n.key in nodes && nodes[n.key] == n && LiveExcept(nodes, {RootOf(n.key)} + {n.key})
      modifies this`count, this`masks, this`nodes, this`nodeCount, nodes.Values`zero, nodes.Values`one
      ensures Core(RootOf(n.key))
      ensures Shrunk(old(nodes), nodes)
    {
      hide *;
      count := count - 1;
      masks := masks[depth := MaskCount(masks, depth) - 1];
      var pruned := DeleteNode(n);
      nodeCount := nodeCount - pruned;
      ValidParts();
      CoreParts(RootOf(n.key));
    }

    /** The sweep of one node that stores paths: slots, counters, report, pruning. */
    method DeleteStaleHere(n: Node, addr: seq<bv8>, depth: nat, removed: seq<Prefix>, tally: AttrTally)
        returns (all: seq<Prefix>)
      requires Core(RootOf(n.key)) && n.key in nodes && nodes[n.key] == n && n.hasPath && tally.Valid()
      requires depth == Depth(n.key) <= family.MaxLen() && |addr| == family.Octets()
      modifies this`content, this`count, this`pathCount, this`masks, this`nodes, this`nodeCount
      modifies nodes.Values`zero, nodes.Values`one
      modifies n`hasPath, n`stale, n`pathID, n`attrs, n`extra, tally
      ensures Core(RootOf(n.key)) && tally.Valid()
      ensures content == DropWhere(old(content), JustAt(n.key))
      ensures Occurrences(content) + tally.added == Occurrences(old(content)) + old(tally.added)
      ensures all == removed + if n.key in AllStale(old(content))
          then [Prefix(RawAddr.Addr(family, addr), depth)] else []
      ensures Shrunk(old(nodes), nodes)
    {
      hide *;
      ghost var k, m, r := n.key, content, RootOf(n.key);
      CoreParts(r);
      ValidParts();
      NodeHolds(nodes, m, k);
      NotElsewhere(nodes, nodes - ({r} + {k}), k);
      LiveWeaken(nodes, {r}, {r} + {k});
      DropOne(m, k);
      DropCounters(m, k, count, pathCount, masks);
      all := removed;
      var deleted := DropSlots(n, tally);
      DropPresence(m, k);
      if deleted && !n.hasPath {
        all := all + [Prefix(RawAddr.Addr(family, addr), depth)];
        RetirePrefix(n, depth);
      } else {
        LiveJoin(nodes, k, {r});
        ShrunkSame(nodes);
        ValidParts();
        CoreParts(r);
      }
    }

    /** The recursive sweep: children first, then the node. The children's pruning may have removed
        this very node from the trie; then it is empty and there is nothing left to do. */
    method DeleteStaleFromNode(n: Node, addr: seq<bv8>, depth: nat, removed: seq<Prefix>, tally: AttrTally)
        returns (all: seq<Prefix>)
      requires Core(RootOf(n.key)) && n.key in nodes && nodes[n.key] == n && tally.Valid()
      requires depth == Depth(n.key) <= family.MaxLen() && |addr| == family.Octets() &&
          addr == AddrOf(n.key, family.Octets())
      modifies this`content, this`count, this`pathCount, this`masks, this`nodes, this`nodeCount, tally
      modifies nodes.Values`zero, nodes.Values`one
      modifies nodes.Values`hasPath, nodes.Values`stale, nodes.Values`pathID, nodes.Values`attrs, nodes.Values`extra
      ensures Core(RootOf(n.key)) && tally.Valid()
      ensures content == DropWhere(old(content), Below(n.key))
      ensures Occurrences(content) + tally.added == Occurrences(old(content)) + old(tally.added)
      ensures all == removed + ToPrefixes(family, PostOrder(AllStale(old(content)), n.key, family.MaxLen()))
      ensures Shrunk(old(nodes), nodes)
      decreases family.MaxLen() - depth, 2
    {
      hide *;
      ghost var k, m, t := n.key, content, nodes;
      CoreParts(RootOf(k));
      ValidParts();
      LinkedIsKeyed(t);
      AllWithin(family, root, t, m);
      DropSubtree(m, k);
      ReportNode(m, k, depth);
      PrefixAt(family, k);
      all := DeleteStaleFromChildren(n, addr, depth, removed, tally);
      ghost var m2, t2, a2 := content, nodes, all;
      ShrunkKeeps(t, t2);
      GoneApart(t, t2);
      CoreParts(RootOf(k));
      ValidParts();
      InOrGoneMeans(n);
      if n.hasPath {
        all := DeleteStaleHere(n, addr, depth, all, tally);
        ShrunkTrans(t, t2, nodes);
      } else {
        NothingHere(nodes, m2, n);
      }
      TwoParts(removed, a2, all, ChildReports(m, k, depth), if k in AllStale(m2) then [PrefixOf(family, k)] else []);
    }

    /** What the sweeps below the two children report. */
    ghost function ChildReports(m: Content, k: Key, depth: nat): seq<Prefix>
      requires depth == Depth(k) <= family.MaxLen()
    {
      var max, l, r := family.MaxLen(), Ext(k, false), Ext(k, true);
      ToPrefixes(family, if depth < max then PostOrder(AllStale(m), l, max) else []) +
      ToPrefixes(family, if depth < max then PostOrder(AllStale(DropWhere(m, Below(l))), r, max) else [])
    }

    /** The loop over both child slots. */
    method DeleteStaleFromChildren(n: Node, addr: seq<bv8>, depth: nat, removed: seq<Prefix>, tally: AttrTally)
        returns (all: seq<Prefix>)
      requires Core(RootOf(n.key)) && n.key in nodes && nodes[n.key] == n && tally.Valid()
      requires depth == Depth(n.key) <= family.MaxLen() && |addr| == family.Octets() &&
          addr == AddrOf(n.key, family.Octets())
      modifies this`content, this`count, this`pathCount, this`masks, this`nodes, this`nodeCount, tally
      modifies nodes.Values`zero, nodes.Values`one
      modifies nodes.Values`hasPath, nodes.Values`stale, nodes.Values`pathID, nodes.Values`attrs, nodes.Values`extra
      ensures Core(RootOf(n.key)) && tally.Valid() && InOrGone(n)
      ensures content == DropWhere(DropWhere(old(content), Below(Ext(n.key, false))), Below(Ext(n.key, true)))
      ensures Occurrences(content) + tally.added == Occurrences(old(content)) + old(tally.added)
      ensures all == removed + ChildReports(old(content), n.key, depth)
      ensures Shrunk(old(nodes), nodes)
      decreases family.MaxLen() - depth, 1
    {
      hide *;
      ghost var k, m, t := n.key, content, nodes;
      CoreParts(RootOf(k));
      ValidParts();
      LinkedIsKeyed(t);
      InOrGoneMeans(n);
      ReportsOfChildren(m, k, depth, removed);
      all := DeleteStaleFromChild(n, false, addr, depth, removed, tally);
      ghost var t1 := nodes;
      ShrunkKeeps(t, t1);
      GoneApart(t, t1);
      all := DeleteStaleFromChild(n, true, addr, depth, all, tally);
      ShrunkKeeps(t1, nodes);
      ShrunkTrans(t, t1, nodes);
    }

    lemma ReportNode(m: Content, k: Key, depth: nat)
      requires depth == Depth(k) <= family.MaxLen() && forall x :: x in m ==> Depth(x) <= family.MaxLen()
      ensures var m2 := DropWhere(DropWhere(m, Below(Ext(k, false))), Below(Ext(k, true)));
        ToPrefixes(family, PostOrder(AllStale(m), k, family.MaxLen())) ==
          ChildReports(m, k, depth) + (if k in AllStale(m2) then [PrefixOf(family, k)] else [])
    {
      hide PostOrder, DropWhere, AllStale, ToPrefixes;
      ReportSubtree(family, m, k);
    }

    lemma ReportsOfChildren(m: Content, k: Key, depth: nat, removed: seq<Prefix>)
      requires depth == Depth(k) <= family.MaxLen()
      ensures depth < family.MaxLen() ==>
        Depth(Ext(k, false)) <= family.MaxLen() && Depth(Ext(k, true)) <= family.MaxLen()
      ensures var max, l, r := family.MaxLen(), Ext(k, false), Ext(k, true);
        removed + ChildReports(m, k, depth) ==
          removed + ToPrefixes(family, if depth < max then PostOrder(AllStale(m), l, max) else [])
                  + ToPrefixes(family, if depth < max then PostOrder(AllStale(DropWhere(m, Below(l))), r, max) else [])
    {
    }

    method DeleteStaleFromChild(n: Node, bit: bool, addr: seq<bv8>, depth: nat, removed: seq<Prefix>, tally: AttrTally)
        returns (all: seq<Prefix>)
      requires Core(RootOf(n.key)) && tally.Valid() && InOrGone(n)
      requires depth == Depth(n.key) <= family.MaxLen() && |addr| == family.Octets() &&
          addr == AddrOf(n.key, family.Octets())
      modifies this`content, this`count, this`pathCount, this`masks, this`nodes, this`nodeCount, tally
      modifies nodes.Values`zero, nodes.Values`one
      modifies nodes.Values`hasPath, nodes.Values`stale, nodes.Values`pathID, nodes.Values`attrs, nodes.Values`extra
      ensures Core(RootOf(n.key)) && tally.Valid() && InOrGone(n)
      ensures content == DropWhere(old(content), Below(Ext(n.key, bit)))
      ensures Occurrences(content) + tally.added == Occurrences(old(content)) + old(tally.added)
      ensures all == removed + ToPrefixes(family, if depth < family.MaxLen()
          then PostOrder(AllStale(old(content)), Ext(n.key, bit), family.MaxLen()) else [])
      ensures Shrunk(old(nodes), nodes)
      decreases family.MaxLen() - depth, 0
    {
      hide *;
      ghost var l := Ext(n.key, bit);
      InOrGoneMeans(n);
      CoreParts(RootOf(n.key));
      ValidParts();
      ChildOrGone(family, root, nodes, content, n, bit);
      NothingToReport(family, removed);
      all := removed;
      var child := if bit then n.one else n.zero;
      if child != null {
        NextIs(family, n.key, bit);
        var next := NextAddr(addr, depth, bit);
        RootOfUp(l);
        ghost var t := nodes;
        all := DeleteStaleFromNode(child, next, depth + 1, removed, tally);
        if n.key in t { ShrunkAt(t, nodes, n.key); }
      } else {
        ShrunkSame(nodes);
      }
      InOrGoneMeans(n);
    }

    lemma InOrGoneMeans(n: Node)
      ensures InOrGone(n) <==>
        if n.key in nodes then nodes[n.key] == n else !n.hasPath && n.zero == null && n.one == null
    {
    }

    /** The node is at its position, or it has been pruned and is empty. */
    ghost predicate InOrGone(n: Node)
      reads this, n
    {
      if n.key in nodes then nodes[n.key] == n else !n.hasPath && n.zero == null && n.one == null
    }

    /** One array entry of the sweep, with the clean-up of an entry left empty. */
    method SweepRoot(i: nat, removed: seq<Prefix>, tally: AttrTally) returns (all: seq<Prefix>)
      requires Valid() && i < root.Length && root.Length == family.RootSize() && tally.Valid()
      modifies this`content, this`count, this`pathCount, this`masks, this`nodes, this`nodeCount, root, tally
      modifies nodes.Values`zero, nodes.Values`one
      modifies nodes.Values`hasPath, nodes.Values`stale, nodes.Values`pathID, nodes.Values`attrs, nodes.Values`extra
      ensures Valid() && tally.Valid() && nodes.Values <= old(nodes.Values)
      ensures content == DropWhere(old(content), Below(Root(family.OctetOf(i))))
      ensures Occurrences(content) + tally.added == Occurrences(old(content)) + old(tally.added)
      ensures all == removed + ToPrefixes(family, PostOrder(AllStale(old(content)), Root(family.OctetOf(i)),
          family.MaxLen()))
    {
      hide *;
      ghost var m, t, k := content, nodes, Root(family.OctetOf(i));
      ValidParts();
      RootBelow(family, root, nodes, m, i);
      RootEntryFacts(family, i, m);
      NothingToReport(family, removed);
      all := removed;
      var n := root[i];
      if n != null {
        var octet := family.OctetOf(i);
        var addr := [octet] + seq(family.Octets() - 1, _ => 0);
        LiveWeaken(t, {}, {RootOf(k)});
        CoreParts(RootOf(k));
        LinkedIsKeyed(t);
        all := DeleteStaleFromNode(n, addr, 8, removed, tally);
        ShrunkKeeps(t, nodes);
        GoneApart(t, nodes);
        CoreParts(RootOf(k));
        ValidParts();
        CleanRoot(octet);
        ValidParts();
      }
    }

    /** The sweep under the RIB lock. Nothing is released yet: references move into the tally. */
    method SweepAll(tally: AttrTally) returns (removed: seq<Prefix>)
      requires Valid() && tally.Valid() && tally.added == multiset{}
      modifies this`content, this`count, this`pathCount, this`masks, this`nodes, this`nodeCount, root, tally
      modifies nodes.Values`zero, nodes.Values`one
      modifies nodes.Values`hasPath, nodes.Values`stale, nodes.Values`pathID, nodes.Values`attrs, nodes.Values`extra
      ensures Valid() && tally.Valid() && nodes.Values <= old(nodes.Values)
      ensures content == DropStale(old(content))
      ensures Occurrences(content) + tally.added == Occurrences(old(content))
      ensures removed == ToPrefixes(family, PostOrderRoots(family, AllStale(old(content)), family.RootSize()))
    {
      hide *;
      ghost var m := content;
      ValidParts();
      removed := [];
      StartSweep(nodes, family, m);
      AllWithin(family, root, nodes, m);
      for i := 0 to root.Length
        invariant Valid() && tally.Valid() && nodes.Values <= old(nodes.Values)
        invariant root.Length == family.RootSize()
        invariant content == DropWhere(m, FirstRoots(family, i))
        invariant Occurrences(content) + tally.added == Occurrences(m)
        invariant removed == ToPrefixes(family, PostOrderRoots(family, AllStale(m), i))
      {
        SweepNext(family, m, i);
        removed := SweepRoot(i, removed, tally);
      }
      SweepDone(family, root, nodes, m, root.Length);
    }

    /** Removes every stale path. The removed paths keep their references until the whole sweep is
        done; only then are they released, in one batch. */
    method DeleteStaleRoutes(ghost others: multiset<RouteAttributes>) returns (removed: seq<Prefix>)
      requires Valid() && attrTable.Valid() && Counts(attrTable.Model(), Occurrences(content) + others)
      modifies this`content, this`count, this`pathCount, this`masks, this`nodes, this`nodeCount, root
      modifies nodes.Values`zero, nodes.Values`one
      modifies nodes.Values`hasPath, nodes.Values`stale, nodes.Values`pathID, nodes.Values`attrs, nodes.Values`extra
      modifies attrTable, attrTable.live`refCount
      ensures Valid() && attrTable.Valid() && attrTable.live <= old(attrTable.live) && nodes.Values <= old(nodes.Values)
      ensures Counts(attrTable.Model(), Occurrences(content) + others)
      ensures content == DropStale(old(content))
      ensures removed == ToPrefixes(family, PostOrderRoots(family, AllStale(old(content)), family.RootSize()))
    {
      hide *;
      var tally := new AttrTally();
      removed := SweepAll(tally);
      TallyBalance(Occurrences(old(content)), Occurrences(content), tally.added, others);
      tally.Release(attrTable, Occurrences(old(content)) + others);
    }

    // ---- Reset ------------------------------------------------------------------------------------------

    /** Empties the RIB at once. The detached trie still holds its references; they are tallied and
        released afterwards, when no one else can reach it. */
    method Reset(ghost others: multiset<RouteAttributes>)
      requires Valid() && attrTable.Valid() && Counts(attrTable.Model(), Occurrences(content) + others)
      modifies this`content, this`count, this`pathCount, this`masks, this`nodes, this`nodeCount, this`root
      modifies attrTable, attrTable.live`refCount
      ensures Valid() && attrTable.Valid() && attrTable.live <= old(attrTable.live)
      ensures content == map[] && nodes == map[] && fresh(root)
      ensures Counts(attrTable.Model(), Occurrences(content) + others)
    {
      hide *;
      ghost var m, t := content, nodes;
      var oldRoot := root;
      ValidParts();
      EmptyIsCounted(map[]);
      Clear();
      ReleaseTree(oldRoot, t, m, Occurrences(m) + others);
      ResetBalance(Occurrences(m), Occurrences(content), others);
    }

    method Clear()
      modifies this`content, this`count, this`pathCount, this`masks, this`nodes, this`nodeCount, this`root
      ensures Valid() && content == map[] && nodes == map[] && fresh(root)
      ensures Occurrences(content) == multiset{}
    {
      root := new Node?[family.RootSize()](_ => null);
      count, pathCount, nodeCount, masks := 0, 0, 0, map[];
      nodes, content := map[], map[];
      EmptyIsCounted(masks);
    }

    /** Releases everything a detached trie holds, in one batch. */
    method ReleaseTree(roots: array<Node?>, ghost t: Trie, ghost m: Content, ghost held: multiset<RouteAttributes>)
      requires Linked(t) && Rooted(family, roots, t) && Stored(t, m) && roots.Length == family.RootSize()
      requires attrTable.Valid() && Counts(attrTable.Model(), held) && Occurrences(m) <= held
      modifies attrTable, attrTable.live`refCount
      ensures attrTable.Valid() && attrTable.live <= old(attrTable.live)
      ensures Counts(attrTable.Model(), held - Occurrences(m))
    {
      hide *;
      var tally := new AttrTally();
      StartCollect(family, m);
      for i := 0 to roots.Length
        invariant tally.Valid() && tally.added == OccurrencesWhere(m, FirstRoots(family, i))
        modifies tally
      {
        RootBelow(family, roots, t, m, i);
        OccurrencesNextRoot(family, m, i);
        if roots[i] != null {
          CollectNodeAttrs(roots[i], tally, family, roots, t, m);
        } else {
          NoneBelow(m, Root(family.OctetOf(i)));
        }
      }
      AllCollected(family, roots, t, m);
      tally.Release(attrTable, held);
    }
  }

  /** The slots of one node, inline first. */
  method TallyNode(n: Node, tally: AttrTally)
    requires n.SlotsOK() && tally.Valid()
    modifies tally
    ensures tally.Valid() && tally.added == old(tally.added) + AttrsOf(n.Paths())
  {
    hide *;
    NodeRefs(n);
    if n.hasPath {
      tally.Add(n.attrs);
      TallyExtra(n.extra, tally);
    }
  }

  lemma NodeRefs(n: Node)
    requires n.SlotsOK()
    ensures n.hasPath ==> n.attrs != null && AttrsOf(n.Paths()) == multiset{n.attrs} + AttrsOf(n.extra)
    ensures !n.hasPath ==> AttrsOf(n.Paths()) == multiset{}
  {
    if n.hasPath { AttrsCons(Held(n.attrs, n.pathID, n.stale), n.extra); }
  }

  method TallyExtra(extra: seq<Entry>, tally: AttrTally)
    requires tally.Valid()
    modifies tally
    ensures tally.Valid() && tally.added == old(tally.added) + AttrsOf(extra)
  {
    hide *;
    AttrsEnds(extra);
    for i := 0 to |extra|
      invariant tally.Valid() && tally.added == old(tally.added) + AttrsOf(extra[..i])
    {
      AttrsUpTo(extra, i);
      tally.Add(extra[i].attrs);
    }
  }

  lemma AttrsUpTo(s: seq<Entry>, i: nat)
    requires i < |s|
    ensures AttrsOf(s[..i + 1]) == AttrsOf(s[..i]) + multiset{s[i].attrs}
  {
    AttrsSnoc(s[..i], s[i]);
    hide AttrsOf;
    assert s[..i + 1] == s[..i] + [s[i]];
  }

  lemma AttrsEnds(s: seq<Entry>)
    ensures AttrsOf(s[..0]) == multiset{} && AttrsOf(s[..|s|]) == AttrsOf(s)
  {
    assert s[..|s|] == s;
  }

  /** Tallies a detached subtree: each reference in it exactly once. */
  method CollectNodeAttrs(n: Node, tally: AttrTally, ghost f: Family, ghost roots: array<Node?>, ghost t: Trie,
      ghost m: Content)
    requires Linked(t) && Rooted(f, roots, t) && Stored(t, m) && n.key in t && t[n.key] == n && tally.Valid()
    modifies tally
    ensures tally.Valid() && tally.added == old(tally.added) + OccurrencesWhere(m, Below(n.key))
    decreases f.MaxLen() - Depth(n.key)
  {
    hide *;
    ghost var k := n.key;
    NodeHolds(t, m, k);
    OccurrencesSubtree(m, k);
    ChildIn(t, m, n, false);
    ChildIn(t, m, n, true);
    KeyDepth(f, roots, t, Ext(k, false));
    KeyDepth(f, roots, t, Ext(k, true));
    TallyNode(n, tally);
    if n.zero != null {
      CollectNodeAttrs(n.zero, tally, f, roots, t, m);
    } else {
      NoneBelow(m, Ext(k, false));
    }
    if n.one != null {
      CollectNodeAttrs(n.one, tally, f, roots, t, m);
    } else {
      NoneBelow(m, Ext(k, true));
    }
  }
}
