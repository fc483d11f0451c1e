/** Octets as bit vectors: the bit walk, host-bit masks, and the IPv4 first-octet filter. */
module Octets {

  /** Bit `j` of an octet, most significant first. */
  predicate BitAt(b: bv8, j: nat)
    requires j < 8
  {
    (b >> (7 - j)) & 1 > 0
  }

  function SetBit(b: bv8, j: nat): bv8
    requires j < 8
  {
    b | (1 << (7 - j))
  }

  function HighMask(j: nat): bv8
    requires j <= 8
  {
    0xFF << (8 - j)
  }

  method IntToBinBitwise(num: bv8) returns (res: seq<bool>)
    ensures |res| == 8 && forall j :: 0 <= j < 8 ==> res[j] == BitAt(num, j)
  {
    res := [];
    var i := 7;
    while i >= 0
      invariant -1 <= i <= 7 && |res| == 7 - i
      invariant forall j :: 0 <= j < 7 - i ==> res[j] == BitAt(num, j)
    {
      var k := num >> i;
      if (k & 1) > 0 {
        res := res + [true];
      } else {
        res := res + [false];
      }
      i := i - 1;
    }
  }

  lemma OctetsEqual(a: bv8, b: bv8)
    requires forall j :: 0 <= j < 8 ==> BitAt(a, j) == BitAt(b, j)
    ensures a == b
  {
    assert BitAt(a, 0) == BitAt(b, 0) && BitAt(a, 1) == BitAt(b, 1) && BitAt(a, 2) == BitAt(b, 2);
    assert BitAt(a, 3) == BitAt(b, 3) && BitAt(a, 4) == BitAt(b, 4) && BitAt(a, 5) == BitAt(b, 5);
    assert BitAt(a, 6) == BitAt(b, 6) && BitAt(a, 7) == BitAt(b, 7);
  }

  lemma OctetLess(a: bv8, b: bv8, j: nat)
    requires j < 8 && !BitAt(a, j) && BitAt(b, j)
    requires forall i :: 0 <= i < j ==> BitAt(a, i) == BitAt(b, i)
    ensures a < b
  {
    assert j > 0 ==> BitAt(a, 0) == BitAt(b, 0);
    assert j > 1 ==> BitAt(a, 1) == BitAt(b, 1);
    assert j > 2 ==> BitAt(a, 2) == BitAt(b, 2);
    assert j > 3 ==> BitAt(a, 3) == BitAt(b, 3);
    assert j > 4 ==> BitAt(a, 4) == BitAt(b, 4);
    assert j > 5 ==> BitAt(a, 5) == BitAt(b, 5);
    assert j > 6 ==> BitAt(a, 6) == BitAt(b, 6);
  }

  lemma OrAt(a: bv8, b: bv8, i: nat)
    requires i < 8
    ensures BitAt(a | b, i) == (BitAt(a, i) || BitAt(b, i))
  {
  }

  lemma OneAt(j: nat, i: nat)
    requires i < 8 && j < 8
    ensures BitAt(SetBit(0, j), i) == (i == j)
  {
  }

  lemma SetBitAt(b: bv8, j: nat, i: nat)
    requires i < 8 && j < 8
    ensures BitAt(SetBit(b, j), i) == (i == j || BitAt(b, i))
  {
    OrAt(b, SetBit(0, j), i);
    OneAt(j, i);
    assert SetBit(b, j) == b | SetBit(0, j);
    hide BitAt, SetBit;
  }

  lemma AndAt(a: bv8, b: bv8, i: nat)
    requires i < 8
    ensures BitAt(a & b, i) == (BitAt(a, i) && BitAt(b, i))
  {
  }

  lemma MaskAt(j: nat, i: nat)
    requires i < 8 && j <= 8
    ensures BitAt(HighMask(j), i) == (i < j)
  {
  }

  lemma HighMaskAt(b: bv8, j: nat, i: nat)
    requires i < 8 && j <= 8
    ensures BitAt(b & HighMask(j), i) == (i < j && BitAt(b, i))
  {
    hide BitAt, HighMask;
    AndAt(b, HighMask(j), i);
    MaskAt(j, i);
  }

  lemma ZeroAt(i: nat)
    requires i < 8
    ensures !BitAt(0, i)
  {
  }

  /** Bit n of word w is set exactly for the admitted first octet 64 * w + n. */
  const V4_FILTER: seq<bv64> := [
    0xfffffffffffffbfe,
    0x7fffffffffffffff,
    0xffffffffffffffff,
    0x00000000ffffffff
  ]

  predicate IsValidV4(octet: bv8)
  {
    V4_FILTER[(octet >> 6) as int] & ((1 as bv64) << ((octet & 63) as int)) != 0
  }

  /** The filter admits exactly the octets its comment lists, so none at or above 224. */
  lemma IsValidV4Meaning(octet: bv8)
    ensures IsValidV4(octet) <==> 1 <= octet <= 9 || 11 <= octet <= 126 || 128 <= octet <= 223
  {
    assert (octet >> 6) == 0 || (octet >> 6) == 1 || (octet >> 6) == 2 || (octet >> 6) == 3;
  }

  lemma NextOctet(b: bv8)
    requires b as int < 255
    ensures (b + 1) as int == b as int + 1
  {
    assert b < 255;
  }

  lemma {:induction false} OctetWithValue(n: nat) returns (b: bv8)
    requires n < 256
    ensures b as int == n
  {
    if n == 0 {
      b := 0;
    } else {
      b := OctetWithValue(n - 1);
      NextOctet(b);
      b := b + 1;
    }
  }

  lemma IntOctetInt(n: nat)
    requires n < 256
    ensures (n as bv8) as int == n
  {
    var b := OctetWithValue(n);
  }

  lemma OctetIntOctet(b: bv8)
    ensures (b as int) as bv8 == b
  {
  }

  lemma OctetOrder(n: nat)
    requires 0x20 <= n <= 0x3F
    ensures 0x20 <= n as bv8 <= 0x3F
  {
  }
}
