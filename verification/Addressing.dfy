/** Addresses, prefixes and trie positions.

    A trie position (`Key`) is the first octet followed by one bit per level. `KeyOf` is the
    walk that insert and lookup perform on an address; `AddrOf` is the address that the
    recursive walkers rebuild on their way down. The two are inverse up to host bits. */
module Addressing {
  import opened Octets

  // ---- Address families -----------------------------------------------------------------

  /** The two instances of the trie: root size, index offset, deepest level, address width. */
  datatype Family = V4 | V6 {
    function RootSize(): nat { if V4? then 256 else 32 }
    function Offset(): nat { if V4? then 0 else 0x20 }
    function MaxLen(): nat { if V4? then 24 else 48 }
    function Octets(): nat { if V4? then 4 else 16 }
    /** How far the enumerating scans go over the root array. */
    function ScanLimit(): nat { if V4? then 224 else 32 }
    /** First octets for which a prefix may be inserted. */
    predicate Admits(octet: bv8) { if V4? then IsValidV4(octet) else 0x20 <= octet <= 0x3F }
    /** First octets for which the root array has an entry. */
    predicate Indexable(octet: bv8) { V4? || 0x20 <= octet <= 0x3F }
    function IndexOf(octet: bv8): (i: nat)
      requires Indexable(octet)
      ensures i < RootSize()
    {
      octet as int - Offset()
    }
    function OctetOf(i: nat): bv8
      requires i < RootSize()
    {
      (i + Offset()) as bv8
    }
  }

  /** Every slot has its own first octet. */
  lemma SlotOctet(f: Family, i: nat)
    requires i < f.RootSize()
    ensures f.Indexable(f.OctetOf(i)) && f.IndexOf(f.OctetOf(i)) == i
  {
    IntOctetInt(i + f.Offset());
    if f.V6? { OctetOrder(i + f.Offset()); }
  }

  /** Every indexable first octet has its own slot, and the scans reach every admitted octet. */
  lemma OctetSlot(f: Family, octet: bv8)
    ensures f.Indexable(octet) ==> f.OctetOf(f.IndexOf(octet)) == octet
    ensures f.Admits(octet) ==> f.Indexable(octet) && f.IndexOf(octet) < f.ScanLimit()
  {
    IsValidV4Meaning(octet);
    hide IsValidV4;
    OctetIntOctet(octet);
  }

  /** Slot `n` belongs to one first octet and to no other. */
  lemma SlotIff(f: Family, n: nat, octet: bv8)
    requires n < f.RootSize()
    ensures f.Indexable(octet) && f.IndexOf(octet) == n <==> octet == f.OctetOf(n)
    ensures f.MaxLen() >= 8
  {
    SlotOctet(f, n);
    OctetSlot(f, octet);
  }

  datatype RawAddr = Addr(family: Family, bytes: seq<bv8>)
  type Addr = a: RawAddr | |a.bytes| == a.family.Octets() witness RawAddr.Addr(V4, [0, 0, 0, 0])

  datatype Prefix = Prefix(addr: Addr, bits: int)

  /** The lengths the trie of a family stores. */
  predicate InRange(f: Family, bits: int)
  {
    8 <= bits <= f.MaxLen()
  }

  // ---- Trie positions -------------------------------------------------------------------

  datatype Key = Root(octet: bv8) | Ext(up: Key, bit: bool)

  function Depth(k: Key): (d: nat)
    ensures d >= 8
  {
    match k
    case Root(_) => 8
    case Ext(up, _) => Depth(up) + 1
  }

  function OctetOfKey(k: Key): bv8
  {
    match k
    case Root(o) => o
    case Ext(up, _) => OctetOfKey(up)
  }

  /** `k` lies in the subtree of `a`. */
  predicate Under(a: Key, k: Key)
  {
    a == k || (k.Ext? && Under(a, k.up))
  }

  predicate Bit(a: seq<bv8>, i: nat)
    requires i < 8 * |a|
  {
    BitAt(a[i / 8], i % 8)
  }

  /** The position reached by walking `len` bits of an address. */
  function KeyOf(a: seq<bv8>, len: nat): (k: Key)
    requires 8 <= len <= 8 * |a|
    ensures Depth(k) == len && OctetOfKey(k) == a[0]
  {
    if len == 8 then Root(a[0]) else Ext(KeyOf(a, len - 1), Bit(a, len - 1))
  }

  /** The address of a child, from that of its parent at `depth`: a right turn sets one bit. */
  function NextAddr(addr: seq<bv8>, depth: nat, bit: bool): (next: seq<bv8>)
    requires depth / 8 < |addr|
    ensures |next| == |addr|
  {
    if bit then addr[depth / 8 := SetBit(addr[depth / 8], depth % 8)] else addr
  }

  /** The address a walker has built when it arrives at `k`: one bit is set per right turn. */
  function AddrOf(k: Key, n: nat): (a: seq<bv8>)
    requires Depth(k) <= 8 * n
    ensures |a| == n
  {
    match k
    case Root(o) => [o] + seq(n - 1, i => 0)
    case Ext(up, bit) =>
      NextAddr(AddrOf(up, n), Depth(up), bit)
  }

  /** Clearing host bits. */
  function Masked(a: seq<bv8>, len: nat): (m: seq<bv8>)
    requires len <= 8 * |a|
    ensures |m| == |a|
  {
    seq(|a|, i requires 0 <= i < |a| =>
      if 8 * (i + 1) <= len then a[i] else if len <= 8 * i then 0 else a[i] & HighMask(len - 8 * i))
  }

  function MaskedPrefix(p: Prefix): Prefix
    requires 0 <= p.bits <= 8 * p.addr.family.Octets()
  {
    Prefix(RawAddr.Addr(p.addr.family, Masked(p.addr.bytes, p.bits)), p.bits)
  }

  function KeyOfPrefix(p: Prefix): Key
    requires InRange(p.addr.family, p.bits)
  {
    KeyOf(p.addr.bytes, p.bits)
  }

  function PrefixOf(f: Family, k: Key): Prefix
    requires Depth(k) <= f.MaxLen()
  {
    Prefix(RawAddr.Addr(f, AddrOf(k, f.Octets())), Depth(k))
  }

  // ---- The walk and the reconstruction are inverse ---------------------------------------

  predicate KeyBit(k: Key, i: nat)
    requires i < Depth(k)
  {
    match k
    case Root(o) => BitAt(o, i)
    case Ext(up, bit) => if i == Depth(up) then bit else KeyBit(up, i)
  }

  lemma {:induction false} KeyBitOfAddr(a: seq<bv8>, len: nat, i: nat)
    requires 8 <= len <= 8 * |a| && i < len
    ensures KeyBit(KeyOf(a, len), i) == Bit(a, i)
  {
    if len == 8 {
      assert i / 8 == 0 && i % 8 == i;
    } else if i < len - 1 {
      KeyBitOfAddr(a, len - 1, i);
    }
  }

  lemma {:induction false} AddrBitOfKey(k: Key, n: nat, i: nat)
    requires Depth(k) <= 8 * n && i < 8 * n
    ensures Bit(AddrOf(k, n), i) == (i < Depth(k) && KeyBit(k, i))
  {
    match k
    case Root(o) =>
      if i >= 8 { ZeroAt(i % 8); }
    case Ext(up, bit) =>
      AddrBitOfKey(up, n, i);
      var d := Depth(up);
      if bit && i / 8 == d / 8 {
        SetBitAt(AddrOf(up, n)[d / 8], d % 8, i % 8);
      }
  }

  lemma MaskedBit(a: seq<bv8>, len: nat, i: nat)
    requires len <= 8 * |a| && i < 8 * |a|
    ensures Bit(Masked(a, len), i) == (i < len && Bit(a, i))
  {
    var j := i / 8;
    if len <= 8 * j {
      ZeroAt(i % 8);
    } else if len < 8 * (j + 1) {
      HighMaskAt(a[j], len - 8 * j, i % 8);
    }
  }

  lemma BytesEqual(a: seq<bv8>, b: seq<bv8>)
    requires |a| == |b| && forall i :: 0 <= i < 8 * |a| ==> Bit(a, i) == Bit(b, i)
    ensures a == b
  {
    forall m | 0 <= m < |a| ensures a[m] == b[m] {
      OctetBits(a, b, m, 8, 8 * |a|);
      OctetsEqual(a[m], b[m]);
    }
  }

  lemma {:induction false} KeysEqual(k: Key, l: Key)
    requires Depth(k) == Depth(l) && forall i :: 0 <= i < Depth(k) ==> KeyBit(k, i) == KeyBit(l, i)
    ensures k == l
  {
    if k.Root? {
      forall j | 0 <= j < 8 ensures BitAt(k.octet, j) == BitAt(l.octet, j) {
        assert KeyBit(k, j) == KeyBit(l, j);
      }
      OctetsEqual(k.octet, l.octet);
    } else {
      assert KeyBit(k, Depth(k.up)) == KeyBit(l, Depth(k.up));
      forall i | 0 <= i < Depth(k.up) ensures KeyBit(k.up, i) == KeyBit(l.up, i) {
        assert KeyBit(k, i) == KeyBit(l, i);
      }
      KeysEqual(k.up, l.up);
    }
  }

  /** Walking the address a walker rebuilt leads back to the same node. */
  lemma KeyOfAddrOf(k: Key, n: nat)
    requires Depth(k) <= 8 * n
    ensures KeyOf(AddrOf(k, n), Depth(k)) == k
  {
    forall i | 0 <= i < Depth(k) ensures KeyBit(KeyOf(AddrOf(k, n), Depth(k)), i) == KeyBit(k, i) {
      KeyBitOfAddr(AddrOf(k, n), Depth(k), i);
      AddrBitOfKey(k, n, i);
    }
    KeysEqual(KeyOf(AddrOf(k, n), Depth(k)), k);
  }

  /** Rebuilding the address of the node an insert reached gives the address with host bits cleared. */
  lemma AddrOfKeyOf(a: seq<bv8>, len: nat)
    requires 8 <= len <= 8 * |a|
    ensures AddrOf(KeyOf(a, len), |a|) == Masked(a, len)
  {
    forall i | 0 <= i < 8 * |a| ensures Bit(AddrOf(KeyOf(a, len), |a|), i) == Bit(Masked(a, len), i) {
      AddrBitOfKey(KeyOf(a, len), |a|, i);
      MaskedBit(a, len, i);
      if i < len { KeyBitOfAddr(a, len, i); }
    }
    BytesEqual(AddrOf(KeyOf(a, len), |a|), Masked(a, len));
  }

  /** Two addresses reach the same node at depth `len` exactly when they share their first `len` bits. */
  lemma SameKey(a: seq<bv8>, b: seq<bv8>, len: nat)
    requires |a| == |b| && 8 <= len <= 8 * |a|
    ensures KeyOf(a, len) == KeyOf(b, len) <==> Masked(a, len) == Masked(b, len)
  {
    AddrOfKeyOf(a, len);
    AddrOfKeyOf(b, len);
    KeyOfAddrOf(KeyOf(a, len), |a|);
    KeyOfAddrOf(KeyOf(b, len), |a|);
  }

  /** Round trip between stored positions and the prefixes reported for them. */
  lemma PrefixRoundTrip(f: Family, k: Key, p: Prefix)
    requires Depth(k) <= f.MaxLen() && p.addr.family == f && InRange(f, p.bits)
    ensures KeyOfPrefix(PrefixOf(f, k)) == k
    ensures PrefixOf(f, KeyOfPrefix(p)) == MaskedPrefix(p)
  {
    KeyOfAddrOf(k, f.Octets());
    AddrOfKeyOf(p.addr.bytes, p.bits);
  }

  // ---- Subtrees and order -----------------------------------------------------------------

  lemma {:induction false} UnderDepth(a: Key, k: Key)
    requires Under(a, k)
    ensures Depth(a) <= Depth(k) && OctetOfKey(a) == OctetOfKey(k)
    ensures Depth(a) == Depth(k) ==> a == k
  {
    if a != k { UnderDepth(a, k.up); }
  }

  /** A subtree is its top and the two child subtrees, which do not meet. */
  lemma {:induction false} UnderSplit(a: Key, k: Key)
    ensures Under(a, k) <==> k == a || Under(Ext(a, false), k) || Under(Ext(a, true), k)
    ensures !(Under(Ext(a, false), k) && Under(Ext(a, true), k))
    ensures !Under(Ext(a, false), a) && !Under(Ext(a, true), a)
  {
    if Under(Ext(a, false), a) { UnderDepth(Ext(a, false), a); }
    if Under(Ext(a, true), a) { UnderDepth(Ext(a, true), a); }
    if k.Ext? {
      UnderSplit(a, k.up);
      if k.up == a && Under(Ext(a, false), k) && Under(Ext(a, true), k) {
        UnderDepth(Ext(a, false), k);
        UnderDepth(Ext(a, true), k);
      }
      if Under(Ext(a, false), k) && k == Ext(a, true) { UnderDepth(Ext(a, false), k); }
      if Under(Ext(a, true), k) && k == Ext(a, false) { UnderDepth(Ext(a, true), k); }
    }
  }

  lemma {:induction false} UnderRoot(o: bv8, k: Key)
    ensures Under(Root(o), k) <==> OctetOfKey(k) == o
  {
    if k.Ext? { UnderRoot(o, k.up); }
  }

  lemma {:induction false} UnderBits(a: Key, k: Key, i: nat)
    requires Under(a, k) && i < Depth(a)
    ensures i < Depth(k) && KeyBit(k, i) == KeyBit(a, i)
  {
    UnderDepth(a, k);
    if a != k {
      UnderDepth(a, k.up);
      UnderBits(a, k.up, i);
    }
  }

  lemma {:induction false} WalkPasses(a: seq<bv8>, d: nat, len: nat)
    requires 8 <= d <= len <= 8 * |a|
    ensures Under(KeyOf(a, d), KeyOf(a, len))
  {
    if d < len { WalkPasses(a, d, len - 1); }
  }

  /** One node lies below another exactly when the walk for its address passes the other. */
  lemma UnderIff(k: Key, l: Key, n: nat)
    requires Depth(k) <= Depth(l) <= 8 * n
    ensures Under(k, l) <==> KeyOf(AddrOf(l, n), Depth(k)) == k
  {
    var a := AddrOf(l, n);
    if Under(k, l) {
      forall i | 0 <= i < Depth(k) ensures KeyBit(KeyOf(a, Depth(k)), i) == KeyBit(k, i) {
        KeyBitOfAddr(a, Depth(k), i);
        AddrBitOfKey(l, n, i);
        UnderBits(k, l, i);
      }
      KeysEqual(KeyOf(a, Depth(k)), k);
    }
    KeyOfAddrOf(l, n);
    WalkPasses(a, Depth(k), Depth(l));
  }

  /** Numeric order of addresses of equal width. */
  ghost predicate LexLess(a: seq<bv8>, b: seq<bv8>)
    requires |a| == |b|
  {
    exists i :: 0 <= i < |a| && a[i] < b[i] && forall j :: 0 <= j < i ==> a[j] == b[j]
  }

  /** By address, then by length. */
  ghost predicate Before(p: Prefix, q: Prefix)
    requires p.addr.family == q.addr.family
  {
    LexLess(p.addr.bytes, q.addr.bytes) || (p.addr.bytes == q.addr.bytes && p.bits < q.bits)
  }

  /** Octet `m` of two addresses agrees on its first `n` bits when the addresses do. */
  lemma OctetBits(a: seq<bv8>, b: seq<bv8>, m: nat, n: nat, d: nat)
    requires |a| == |b| && m < |a| && n <= 8 && 8 * m + n <= d <= 8 * |a|
    requires forall i :: 0 <= i < d ==> Bit(a, i) == Bit(b, i)
    ensures forall j :: 0 <= j < n ==> BitAt(a[m], j) == BitAt(b[m], j)
  {
    forall j | 0 <= j < n ensures BitAt(a[m], j) == BitAt(b[m], j) {
      var i := 8 * m + j;
      assert i / 8 == m && i % 8 == j;
      assert Bit(a, i) == Bit(b, i);
    }
  }

  lemma LexByBit(a: seq<bv8>, b: seq<bv8>, d: nat)
    requires |a| == |b| && d < 8 * |a| && !Bit(a, d) && Bit(b, d)
    requires forall i :: 0 <= i < d ==> Bit(a, i) == Bit(b, i)
    ensures LexLess(a, b)
  {
    var m := d / 8;
    assert a[m] < b[m] by {
      OctetBits(a, b, m, d % 8, d);
      OctetLess(a[m], b[m], d % 8);
    }
    forall n | 0 <= n < m ensures a[n] == b[n] {
      OctetBits(a, b, n, 8, d);
      OctetsEqual(a[n], b[n]);
    }
  }

  /** Everything in a left subtree comes before everything in the right one. */
  lemma SiblingsOrdered(f: Family, a: Key, k: Key, l: Key)
    requires Under(Ext(a, false), k) && Under(Ext(a, true), l)
    requires Depth(k) <= f.MaxLen() && Depth(l) <= f.MaxLen()
    ensures Before(PrefixOf(f, k), PrefixOf(f, l))
  {
    var n := f.Octets();
    UnderDepth(Ext(a, false), k);
    var d := Depth(a);
    forall i | 0 <= i <= d
      ensures Bit(AddrOf(k, n), i) == KeyBit(Ext(a, false), i)
      ensures Bit(AddrOf(l, n), i) == KeyBit(Ext(a, true), i)
    {
      UnderBits(Ext(a, false), k, i);
      UnderBits(Ext(a, true), l, i);
      AddrBitOfKey(k, n, i);
      AddrBitOfKey(l, n, i);
    }
    forall i | 0 <= i < d ensures Bit(AddrOf(k, n), i) == Bit(AddrOf(l, n), i) {
      assert KeyBit(Ext(a, false), i) == KeyBit(a, i) == KeyBit(Ext(a, true), i);
    }
    LexByBit(AddrOf(k, n), AddrOf(l, n), d);
  }

  /** A node comes before everything strictly below it. */
  lemma TopFirst(f: Family, a: Key, k: Key)
    requires Under(a, k) && a != k && Depth(k) <= f.MaxLen()
    ensures Depth(a) < Depth(k) && Before(PrefixOf(f, a), PrefixOf(f, k))
  {
    UnderDepth(a, k);
    var n := f.Octets();
    var x, y := AddrOf(a, n), AddrOf(k, n);
    forall i | 0 <= i < 8 * n ensures Bit(x, i) ==> Bit(y, i) {
      AddrBitOfKey(a, n, i);
      AddrBitOfKey(k, n, i);
      if i < Depth(a) { UnderBits(a, k, i); }
    }
    if x != y {
      var d := FirstDifference(x, y, 0);
      LexByBit(x, y, d);
    }
  }

  lemma {:induction false} FirstDifference(a: seq<bv8>, b: seq<bv8>, from: nat) returns (d: nat)
    requires |a| == |b| && a != b && from <= 8 * |a|
    requires forall i :: 0 <= i < from ==> Bit(a, i) == Bit(b, i)
    ensures d < 8 * |a| && Bit(a, d) != Bit(b, d)
    ensures forall i :: 0 <= i < d ==> Bit(a, i) == Bit(b, i)
    decreases 8 * |a| - from
  {
    if from == 8 * |a| {
      BytesEqual(a, b);
      assert false;
    } else if Bit(a, from) != Bit(b, from) {
      d := from;
    } else {
      d := FirstDifference(a, b, from + 1);
    }
  }

  lemma RootsOrdered(f: Family, k: Key, l: Key)
    requires Depth(k) <= f.MaxLen() && Depth(l) <= f.MaxLen() && OctetOfKey(k) < OctetOfKey(l)
    ensures Before(PrefixOf(f, k), PrefixOf(f, l))
  {
    FirstOctet(k, f.Octets());
    FirstOctet(l, f.Octets());
  }

  lemma {:induction false} FirstOctet(k: Key, n: nat)
    requires Depth(k) <= 8 * n
    ensures AddrOf(k, n)[0] == OctetOfKey(k)
  {
    if k.Ext? { FirstOctet(k.up, n); }
  }
}
