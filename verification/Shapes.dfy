/** The shape of the trie is a function of what is stored: no dead node is ever left behind, and the
    order of past operations leaves no trace. */
module Shapes {
  import opened Addressing
  import opened Nodes
  import opened Ribs
  import RibModel
  import opened Tries

  /** Following the array entry and the child pointers along a position. */
  ghost function WalkTo(r: Rib, k: Key): Node?
    requires r.root.Length == r.family.RootSize()
    reads r, r.root, r.nodes.Values
    decreases k
  {
    match k
    case Root(o) => if r.family.Indexable(o) then r.root[r.family.IndexOf(o)] else null
    case Ext(up, bit) =>
      var n := WalkTo(r, up);
      if n == null || n !in r.nodes.Values then null else n.Child(bit)
  }

  /** The pointers reach exactly the nodes of the ghost map, each under one position only. */
  lemma {:induction false} Reached(r: Rib, k: Key)
    requires r.Shape()
    ensures WalkTo(r, k) == NodeAt(r.nodes, k)
  {
    hide Linked, Rooted, Stored;
    r.ValidParts();
    match k
    case Root(o) =>
      if r.family.Indexable(o) {
        RootSlot(r.family, r.root, r.nodes, o);
      } else if k in r.nodes {
        IndexableKey(r.family, r.root, r.nodes, k);
      }
    case Ext(up, bit) =>
      Reached(r, up);
      if up in r.nodes {
        KeyAt(r.nodes, up);
        ChildOf(r.nodes, r.nodes[up], bit);
      } else {
        NoOrphans(r.nodes, up);
      }
  }

  lemma {:induction false} OneNodePerKey(t: Trie)
    requires Keyed(t)
    ensures |t.Values| == |t|
    decreases |t|
  {
    if t == map[] {
      assert t.Values == {};
    } else {
      var k :| k in t;
      var u := t - {k};
      OneNodePerKey(u);
      forall x | x in u ensures u[x] != t[k] {
        assert t[x].key == x;
      }
      assert t == u[k := t[k]];
      assert t.Values == u.Values + {t[k]};
    }
  }

  /** `nodeCount` is the number of nodes the pointers reach. */
  lemma NodeCountIsExact(r: Rib)
    requires r.Shape()
    ensures r.nodeCount == |r.nodes.Values|
    ensures forall n: Node :: n in r.nodes.Values <==> WalkTo(r, n.key) == n
    ensures forall k :: WalkTo(r, k) != null ==> WalkTo(r, k) in r.nodes.Values && WalkTo(r, k).key == k
  {
    r.ValidParts();
    hide Rooted, Stored, WalkTo;
    LinkedIsKeyed(r.nodes);
    hide Linked;
    OneNodePerKey(r.nodes);
    forall k ensures WalkTo(r, k) == NodeAt(r.nodes, k) {
      Reached(r, k);
    }
  }

  /** Every node leads to a stored prefix. */
  lemma {:induction false} LiveBelow(f: Family, root: array<Node?>, t: Trie, m: Content, a: Key) returns (k: Key)
    requires Linked(t) && Rooted(f, root, t) && Stored(t, m) && LiveExcept(t, {}) && a in t
    ensures k in m && Under(a, k)
    decreases f.MaxLen() - Depth(a)
  {
    hide Rooted, Stored, Linked;
    NodeHolds(t, m, a);
    KeyAt(t, a);
    assert a in t - {};
    k := a;
    if !t[a].hasPath {
      var bit := t[a].zero == null;
      ChildOf(t, t[a], bit);
      KeyDepth(f, root, t, Ext(a, bit));
      k := LiveBelow(f, root, t, m, Ext(a, bit));
      UnderSplit(a, k);
    }
  }

  /** A position has a node exactly when it lies on the way to a stored prefix. */
  lemma NodeIffNeeded(r: Rib, a: Key)
    requires r.Shape() && LiveExcept(r.nodes, {})
    ensures a in r.nodes <==> exists k :: k in r.content && Under(a, k)
  {
    hide Linked, Rooted, Stored, LiveExcept, Rib.Counted;
    r.ValidParts();
    StoredInside(r.nodes, r.content);
    if a in r.nodes {
      var k := LiveBelow(r.family, r.root, r.nodes, r.content, a);
    }
    if k :| k in r.content && Under(a, k) {
      AncestorIn(r.nodes, a, k);
    }
  }

  /** Two RIBs that store the same prefixes have the same trie, node for node, and the same counts,
      whatever operations brought them there. */
  lemma ShapeForgetsHistory(r: Rib, q: Rib)
    requires r.Valid() && q.Valid() && r.content.Keys == q.content.Keys
    ensures r.nodes.Keys == q.nodes.Keys && r.nodeCount == q.nodeCount && r.count == q.count
    ensures forall len :: MaskCount(r.masks, len) == MaskCount(q.masks, len)
  {
    hide Linked, Rooted, Stored, LiveExcept;
    forall a ensures a in r.nodes <==> a in q.nodes {
      NodeIffNeeded(r, a);
      NodeIffNeeded(q, a);
    }
    assert r.nodes.Keys == q.nodes.Keys;
    assert |r.nodes.Keys| == |r.nodes| && |q.nodes.Keys| == |q.nodes|;
    assert |r.content.Keys| == |r.content| && |q.content.Keys| == |q.content|;
    forall len ensures MaskCount(r.masks, len) == MaskCount(q.masks, len) {
      SameLengths(r.content, q.content, len);
    }
  }

  lemma SameLengths(m: Content, n: Content, len: int)
    requires m.Keys == n.Keys
    ensures RibModel.OfLength(m, len) == RibModel.OfLength(n, len)
  {
  }

  lemma CountersAddUp(m: Content, count: int, pathCount: int, masks: map<int, int>, hi: int)
    requires CountersFor(m, count, pathCount, masks) && 8 <= hi && forall k :: k in m ==> Depth(k) < hi
    ensures RibModel.Summed(len => MaskCount(masks, len), 8, hi) == count
  {
    RibModel.LengthsPartition(m, hi);
    SameSums(len => MaskCount(masks, len), len => |RibModel.OfLength(m, len)|, hi);
  }

  /** The distribution over prefix lengths adds up to the number of prefixes. */
  lemma SubnetsAddUp(r: Rib)
    requires r.Shape() && r.Counted()
    ensures var masks := r.masks;
      8 <= r.family.MaxLen() && RibModel.Summed(len => MaskCount(masks, len), 8, r.family.MaxLen() + 1) == r.count
  {
    hide Linked, Rooted, Stored, LiveExcept, CountersFor, RibModel.Summed, WalkTo;
    AllWithin(r.family, r.root, r.nodes, r.content);
    CountersAddUp(r.content, r.count, r.pathCount, r.masks, r.family.MaxLen() + 1);
  }

  lemma {:induction false} SameSums(f: int -> int, g: int -> int, hi: int)
    requires 8 <= hi && forall len :: f(len) == g(len)
    ensures RibModel.Summed(f, 8, hi) == RibModel.Summed(g, 8, hi)
    decreases hi
  {
    if hi > 8 { SameSums(f, g, hi - 1); }
  }
}
