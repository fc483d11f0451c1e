/** Read-only operations on a RIB. Each is proved to answer as the reference map does. */
module Queries {
  import opened Addressing
  import opened Attributes
  import opened Nodes
  import opened Octets
  import opened PathSeq
  import opened Reference
  import opened RibModel
  import opened Ribs
  import opened Selection
  import opened Tries
  import opened Walks

  type Found = Option<Route<RouteAttributes>>

  // ---- Longest prefix match -----------------------------------------------------------------------------

  /** The best match so far, as the search keeps it: attributes, ID, node and length. */
  datatype Hit = Hit(attr: RouteAttributes?, id: uint32, node: Node?, len: nat)

  ghost predicate Tracks(r: Rib, a: seq<bv8>, d: nat, hit: Hit)
    reads r`nodes, r`content
  {
    && DeepestSoFar(r.nodes, r.content, a, d, hit.node, hit.len)
    && (hit.attr == null <==> hit.len == 0)
    && (hit.len != 0 ==>
          var s := At(r.content, KeyOf(a, hit.len));
          s != [] && (var b := s[Best(MapAttrs(ContentOf, s))]; hit.attr == b.attrs && hit.id == b.pathID))
  }

  /** Looks at the node at depth `d`: a better match if it has a best path at all. */
  method Consider(r: Rib, a: seq<bv8>, d: nat, n: Node, was: Hit) returns (hit: Hit)
    requires Stored(r.nodes, r.content) && 8 <= d <= 8 * |a| && KeyOf(a, d) in r.nodes && r.nodes[KeyOf(a, d)] == n
    requires if d == 8 then was == Hit(null, 0, null, 0) else Tracks(r, a, d - 1, was)
    ensures Tracks(r, a, d, hit)
  {
    hide KeyOf, Stored, Node.SlotsOK, Node.Paths, Best, DeepestSoFar, RouteAttributes.Content, MapAttrs;
    Arrive(r.nodes, r.content, a, d, was.node, was.len);
    var attr, pathID := n.BestPathWithID();
    if attr != null {
      hit := Hit(attr, pathID, n, d);
    } else {
      hit := was;
    }
  }

  /** Eight levels of the walk; `stopped` at a missing child. */
  method SearchOctet(r: Rib, a: seq<bv8>, i: nat, from: Node, was: Hit)
      returns (n: Node, stopped: bool, hit: Hit, ghost d: nat)
    requires Linked(r.nodes) && Stored(r.nodes, r.content) && 1 <= i < |a|
    requires KeyOf(a, 8 * i) in r.nodes && r.nodes[KeyOf(a, 8 * i)] == from && Tracks(r, a, 8 * i, was)
    ensures 8 * i <= d <= 8 * i + 8 && KeyOf(a, d) in r.nodes && r.nodes[KeyOf(a, d)] == n && Tracks(r, a, d, hit)
    ensures if stopped then d < 8 * i + 8 && KeyOf(a, d + 1) !in r.nodes else d == 8 * i + 8
  {
    hide KeyOf, Linked, Stored, Tracks, BitAt;
    n, hit, d := from, was, 8 * i;
    var bitCount := 8 * i + 1;
    var bits := IntToBinBitwise(a[i]);
    for j := 0 to 8
      invariant d == 8 * i + j == bitCount - 1 && KeyOf(a, d) in r.nodes && r.nodes[KeyOf(a, d)] == n &&
          Tracks(r, a, d, hit)
    {
      KeyStep(a, i, j);
      KeyAt(r.nodes, KeyOf(a, d));
      ChildOf(r.nodes, n, bits[j]);
      if n.Child(bits[j]) == null {
        return n, true, hit, d;
      }
      n := n.Child(bits[j]);
      d := d + 1;
      hit := Consider(r, a, bitCount, n, hit);
      bitCount := bitCount + 1;
    }
    stopped := false;
  }

  /** The whole walk from an array entry: all octets the family uses, or up to a missing child. */
  method SearchWalk(r: Rib, a: seq<bv8>, from: Node) returns (hit: Hit)
    requires Linked(r.nodes) && Stored(r.nodes, r.content) && |a| == r.family.Octets()
    requires KeyOf(a, 8) in r.nodes && r.nodes[KeyOf(a, 8)] == from
    ensures Tracks(r, a, r.family.MaxLen(), hit)
  {
    hide KeyOf, Linked, Stored, Tracks;
    var n := from;
    hit := Consider(r, a, 8, n, Hit(null, 0, null, 0));
    ghost var d := 8;
    var stopped := false;
    var i := 1;
    while !stopped && 8 * i < r.family.MaxLen()
      invariant 1 <= i && 8 <= d <= r.family.MaxLen() && (!stopped ==> d == 8 * i)
      invariant KeyOf(a, d) in r.nodes && r.nodes[KeyOf(a, d)] == n && Tracks(r, a, d, hit)
      invariant stopped ==> d < r.family.MaxLen() && KeyOf(a, d + 1) !in r.nodes
      decreases !stopped, r.family.MaxLen() - 8 * i
    {
      WholeOctets(r.family, i, r.family.MaxLen());
      n, stopped, hit, d := SearchOctet(r, a, i, n, hit);
      i := i + 1;
    }
    StaysTracked(r, a, d, hit);
  }

  /** Where the walk has ended it has seen everything that can match. */
  lemma StaysTracked(r: Rib, a: seq<bv8>, d: nat, hit: Hit)
    requires Linked(r.nodes) && Stored(r.nodes, r.content) && |a| == r.family.Octets() && 8 <= d <= r.family.MaxLen()
    requires Tracks(r, a, d, hit) && (d < r.family.MaxLen() ==> KeyOf(a, d + 1) !in r.nodes)
    ensures Tracks(r, a, r.family.MaxLen(), hit)
  {
    hide KeyOf, Linked, Stored, Best, MapAttrs;
    Leave(r.nodes, r.content, a, d, r.family.MaxLen());
  }

  /** Without an array entry for its first octet an address matches nothing. */
  lemma NoEntryNoMatch(r: Rib, a: seq<bv8>)
    requires r.Shape() && |a| == r.family.Octets()
    requires !r.family.Indexable(a[0]) || r.root[r.family.IndexOf(a[0])] == null
    ensures MatchLen(r.content, a, r.family.MaxLen()) == 0
  {
    hide Linked, Rooted, Stored;
    KeyAtRoot(a);
    if Root(a[0]) in r.nodes {
      IndexableKey(r.family, r.root, r.nodes, Root(a[0]));
    }
    if r.family.Indexable(a[0]) { RootSlot(r.family, r.root, r.nodes, a[0]); }
    Leave(r.nodes, r.content, a, 7, r.family.MaxLen());
  }

  /** A match reported through the best path and staleness of its node. */
  method Report(r: Rib, ip: Addr, hit: Hit) returns (res: Found)
    requires Stored(r.nodes, r.content) && WellFormed(r.content) && ip.family == r.family
    requires Tracks(r, ip.bytes, r.family.MaxLen(), hit)
    ensures Outward(res) == Reference.Search(r.family, Contents(r.content), ip)
    ensures res.Some? ==> Points(r.content, res.value.attributes)
  {
    hide KeyOf, Stored, Best, MapAttrs, Node.SlotsOK, Node.Paths, RouteAttributes.Content, Masked;
    MatchView(ContentOf, r.content, ip.bytes, r.family.MaxLen());
    if hit.attr == null {
      return None;
    }
    ghost var k := KeyOf(ip.bytes, hit.len);
    NodeHolds(r.nodes, r.content, k);
    var stale := hit.node.IsPathStale(hit.id);
    Reported(r.content, k, Prefix(ip, hit.len), hit.attr, hit.id, stale);
    return Some(Route(MaskedPrefix(Prefix(ip, hit.len)), hit.attr, hit.id, stale));
  }

  /** The attributes are those of a stored path, not a copy. */
  ghost predicate Points(m: Content, a: RouteAttributes)
  {
    exists k, i :: k in m && 0 <= i < |m[k]| && m[k][i].attrs == a
  }

  method Search(r: Rib, ip: Addr) returns (res: Found)
    requires r.Shape()
    ensures Outward(res) == Reference.Search(r.family, Contents(r.content), ip)
    ensures res.Some? ==> Points(r.content, res.value.attributes)
  {
    hide Linked, Rooted, Stored, KeyOf, LiveExcept, CountersFor, Tracks, Points;
    if ip.family != r.family {
      return None;
    }
    var a := ip.bytes;
    r.ValidParts();
    StoredIsWellFormed(r.nodes, r.content);
    if r.family.Indexable(a[0]) { RootSlot(r.family, r.root, r.nodes, a[0]); }
    MatchView(ContentOf, r.content, a, r.family.MaxLen());
    if !r.family.Indexable(a[0]) || r.root[r.family.IndexOf(a[0])] == null {
      NoEntryNoMatch(r, a);
      return None;
    }
    KeyAtRoot(a);
    var hit := SearchWalk(r, a, r.root[r.family.IndexOf(a[0])]);
    res := Report(r, ip, hit);
  }

  // ---- All paths of the longest match ---------------------------------------------------------------------

  /** The same walk, testing only whether a node holds a path. */
  method DeepestOctet(r: Rib, a: seq<bv8>, i: nat, from: Node, wasNode: Node?, wasLen: nat)
      returns (n: Node, stopped: bool, node: Node?, len: nat, ghost d: nat)
    requires Linked(r.nodes) && Stored(r.nodes, r.content) && 1 <= i < |a|
    requires KeyOf(a, 8 * i) in r.nodes && r.nodes[KeyOf(a, 8 * i)] == from
    requires DeepestSoFar(r.nodes, r.content, a, 8 * i, wasNode, wasLen)
    ensures 8 * i <= d <= 8 * i + 8 && KeyOf(a, d) in r.nodes && r.nodes[KeyOf(a, d)] == n
    ensures DeepestSoFar(r.nodes, r.content, a, d, node, len)
    ensures if stopped then d < 8 * i + 8 && KeyOf(a, d + 1) !in r.nodes else d == 8 * i + 8
  {
    hide KeyOf, Linked, Stored, DeepestSoFar, BitAt, Node.Paths, Node.SlotsOK;
    n, node, len, d := from, wasNode, wasLen, 8 * i;
    var bitCount := 8 * i + 1;
    var bits := IntToBinBitwise(a[i]);
    for j := 0 to 8
      invariant d == 8 * i + j == bitCount - 1 && KeyOf(a, d) in r.nodes && r.nodes[KeyOf(a, d)] == n
      invariant DeepestSoFar(r.nodes, r.content, a, d, node, len)
    {
      KeyStep(a, i, j);
      KeyAt(r.nodes, KeyOf(a, d));
      ChildOf(r.nodes, n, bits[j]);
      if n.Child(bits[j]) == null {
        return n, true, node, len, d;
      }
      n := n.Child(bits[j]);
      d := d + 1;
      Arrive(r.nodes, r.content, a, d, node, len);
      if n.hasPath {
        node, len := n, bitCount;
      }
      bitCount := bitCount + 1;
    }
    stopped := false;
  }

  method DeepestWalk(r: Rib, a: seq<bv8>, from: Node) returns (node: Node?, len: nat)
    requires Linked(r.nodes) && Stored(r.nodes, r.content) && |a| == r.family.Octets()
    requires KeyOf(a, 8) in r.nodes && r.nodes[KeyOf(a, 8)] == from
    ensures DeepestSoFar(r.nodes, r.content, a, r.family.MaxLen(), node, len)
  {
    hide KeyOf, Linked, Stored, DeepestSoFar, Node.Paths, Node.SlotsOK;
    var n := from;
    Arrive(r.nodes, r.content, a, 8, null, 0);
    node, len := if n.hasPath then n else null, if n.hasPath then 8 else 0;
    ghost var d := 8;
    var stopped := false;
    var i := 1;
    while !stopped && 8 * i < r.family.MaxLen()
      invariant 1 <= i && 8 <= d <= r.family.MaxLen() && (!stopped ==> d == 8 * i)
      invariant KeyOf(a, d) in r.nodes && r.nodes[KeyOf(a, d)] == n && DeepestSoFar(r.nodes, r.content, a, d, node, len)
      invariant stopped ==> d < r.family.MaxLen() && KeyOf(a, d + 1) !in r.nodes
      decreases !stopped, r.family.MaxLen() - 8 * i
    {
      WholeOctets(r.family, i, r.family.MaxLen());
      n, stopped, node, len, d := DeepestOctet(r, a, i, n, node, len);
      i := i + 1;
    }
    StaysDeepest(r, a, d, node, len);
  }

  lemma StaysDeepest(r: Rib, a: seq<bv8>, d: nat, node: Node?, len: nat)
    requires Linked(r.nodes) && Stored(r.nodes, r.content) && |a| == r.family.Octets() && 8 <= d <= r.family.MaxLen()
    requires DeepestSoFar(r.nodes, r.content, a, d, node, len) &&
        (d < r.family.MaxLen() ==> KeyOf(a, d + 1) !in r.nodes)
    ensures DeepestSoFar(r.nodes, r.content, a, r.family.MaxLen(), node, len)
  {
    hide KeyOf, Linked, Stored;
    Leave(r.nodes, r.content, a, d, r.family.MaxLen());
  }

  lemma RoutesUpTo(p: Prefix, s: seq<Entry>, i: nat)
    requires i <= |s|
    ensures i < |s| ==> ToRoutes(p, s)[..i + 1] == ToRoutes(p, s)[..i] + [Route(p, s[i].attrs, s[i].pathID, s[i].stale)]
    ensures s == [] ==> ToRoutes(p, s) == []
    ensures ToRoutes(p, s)[..0] == [] && ToRoutes(p, s)[..|s|] == ToRoutes(p, s)
  {
  }

  method NodeToRoutes(n: Node?, p: Prefix) returns (res: seq<Route<RouteAttributes>>)
    requires (n != null ==> n.SlotsOK()) && 0 <= p.bits <= 8 * p.addr.family.Octets()
    ensures res == if n == null then [] else ToRoutes(MaskedPrefix(p), n.Paths())
  {
    hide Masked, UniqueIDs, ToRoutes;
    RoutesUpTo(MaskedPrefix(p), if n == null then [] else n.Paths(), 0);
    if n == null || !n.hasPath {
      return [];
    }
    var paths := n.AllPaths();
    res := [];
    for i := 0 to |paths|
      invariant |res| == i && res == ToRoutes(MaskedPrefix(p), paths)[..i]
    {
      RoutesUpTo(MaskedPrefix(p), paths, i);
      res := res + [Route(MaskedPrefix(p), paths[i].attrs, paths[i].pathID, paths[i].stale)];
    }
  }

  /** A value, or the run-time panic of an index outside the root array. */
  datatype Outcome<T> = Returned(value: T) | IndexPanic

  /** The array is indexed without the range check that Search makes, so the IPv6 instance panics
      exactly on addresses outside 2000::/3. */
  method AllPathsSearch(r: Rib, ip: Addr) returns (res: Outcome<seq<Route<RouteAttributes>>>)
    requires r.Shape()
    ensures res.IndexPanic? <==> ip.family == r.family && !r.family.Indexable(ip.bytes[0])
    ensures res.Returned? ==> MapRoutes(ContentOf, res.value) == Reference.AllPathsSearch(r.family,
        Contents(r.content), ip)
  {
    hide Linked, Rooted, Stored, KeyOf, LiveExcept, CountersFor, Masked, Node.Paths, Node.SlotsOK,
        RouteAttributes.Content;
    if ip.family != r.family {
      return Returned([]);
    }
    var a := ip.bytes;
    r.ValidParts();
    MatchView(ContentOf, r.content, a, r.family.MaxLen());
    if !r.family.Indexable(a[0]) {
      return IndexPanic;
    }
    RootSlot(r.family, r.root, r.nodes, a[0]);
    var entry := r.root[r.family.IndexOf(a[0])];
    if entry == null {
      NoEntryNoMatch(r, a);
      return Returned([]);
    }
    KeyAtRoot(a);
    var node, len := DeepestWalk(r, a, entry);
    if node == null {
      return Returned([]);
    }
    ghost var k := KeyOf(a, len);
    NodeHolds(r.nodes, r.content, k);
    var rs := NodeToRoutes(node, Prefix(ip, len));
    RoutesOut(MaskedPrefix(Prefix(ip, len)), At(r.content, k));
    return Returned(rs);
  }

  // ---- Exact match ------------------------------------------------------------------------------------------

  /** The node a prefix would be stored at, if the prefix is one the trie can hold. */
  method FindNode(r: Rib, p: Prefix) returns (n: Node?)
    requires r.Shape() && p.addr.family == r.family
    ensures n != null <==> InRange(r.family, p.bits) && KeyOfPrefix(p) in r.nodes
    ensures n != null ==> n == r.nodes[KeyOfPrefix(p)] && n.SlotsOK() && n.Paths() == At(r.content, KeyOfPrefix(p))
    ensures n == null && InRange(r.family, p.bits) ==> KeyOfPrefix(p) !in r.content
  {
    hide Linked, Rooted, Stored, KeyOf, LiveExcept, CountersFor, Node.Paths, Node.SlotsOK;
    var mask, a := p.bits, p.addr.bytes;
    if mask < 8 || mask > r.family.MaxLen() {
      return null;
    }
    ghost var k := KeyOf(a, mask);
    r.ValidParts();
    StoredInside(r.nodes, r.content);
    if !r.family.Indexable(a[0]) {
      if k in r.nodes { IndexableKey(r.family, r.root, r.nodes, k); }
      return null;
    }
    n := r.Locate(a, mask);
    if n != null { NodeHolds(r.nodes, r.content, k); }
  }

  method Lookup(r: Rib, p: Prefix) returns (res: Found)
    requires r.Shape()
    ensures Outward(res) == Reference.Lookup(r.family, Contents(r.content), p)
    ensures res.Some? ==> Points(r.content, res.value.attributes)
  {
    hide Linked, Rooted, Stored, KeyOf, LiveExcept, CountersFor, Masked, Best, MapAttrs, Node.Paths, Node.SlotsOK,
        RouteAttributes.Content;
    if p.addr.family != r.family {
      return None;
    }
    r.ValidParts();
    StoredIsWellFormed(r.nodes, r.content);
    var n := FindNode(r, p);
    if n == null {
      return None;
    }
    var attr, pathID := n.BestPathWithID();
    if attr == null {
      return None;
    }
    var stale := n.IsPathStale(pathID);
    Reported(r.content, KeyOfPrefix(p), p, attr, pathID, stale);
    return Some(Route(MaskedPrefix(p), attr, pathID, stale));
  }

  method AllPaths(r: Rib, p: Prefix) returns (res: seq<Route<RouteAttributes>>)
    requires r.Shape()
    ensures MapRoutes(ContentOf, res) == Reference.AllPaths(r.family, Contents(r.content), p)
  {
    hide Linked, Rooted, Stored, KeyOf, LiveExcept, CountersFor, Masked, Node.Paths, Node.SlotsOK,
        RouteAttributes.Content;
    if p.addr.family != r.family {
      return [];
    }
    var n := FindNode(r, p);
    if n == null {
      return [];
    }
    res := NodeToRoutes(n, p);
    RoutesOut(MaskedPrefix(p), At(r.content, KeyOfPrefix(p)));
  }

  // ---- Counters -----------------------------------------------------------------------------------------------

  method Count(r: Rib) returns (n: int)
    requires r.Counted()
    ensures n == |Contents(r.content)|
  {
    CountsSeen(r.content);
    n := r.count;
  }

  method PathCount(r: Rib) returns (n: int)
    requires r.Counted()
    ensures n == |Slots(Contents(r.content))|
  {
    CountsSeen(r.content);
    n := r.pathCount;
  }

  /** The distribution over lengths; lengths no longer used may stay with count zero. */
  method GetSubnets(r: Rib) returns (masks: map<int, int>)
    requires r.Counted()
    ensures forall len :: MaskCount(masks, len) == |OfLength(Contents(r.content), len)|
  {
    CountsSeen(r.content);
    masks := r.masks;
  }
}
