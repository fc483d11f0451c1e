/** BGP path attributes: content, hash, equality, and the predicates queries are built from. */
module Attributes {

  const TWO_32: int := 0x1_0000_0000

  type uint32 = x: int | 0 <= x < TWO_32

  type uint64 = x: int | 0 <= x < 0x1_0000_0000_0000_0000

  datatype LargeCommunity = LargeCommunity(globalAdmin: uint32, localData1: uint32, localData2: uint32)

  /** What hashing and equality look at. */
  datatype AttrContent = AttrContent(
    asPath: seq<uint32>,
    communities: seq<uint32>,
    largeCommunities: seq<LargeCommunity>,
    localPref: uint32
  )

  const EMPTY: AttrContent := AttrContent([], [], [], 0)

  /** A stored or caller-supplied attribute set. Only the reference count ever changes. */
  class RouteAttributes {
    const asPath: seq<uint32>
    const communities: seq<uint32>
    const largeCommunities: seq<LargeCommunity>
    const localPref: uint32
    const hash: uint64
    const asPathStr: string
    var refCount: uint32

    constructor (c: AttrContent, hash: uint64, asPathStr: string, refCount: uint32)
      ensures Content() == c && this.hash == hash && this.asPathStr == asPathStr && this.refCount == refCount
    {
      asPath, communities, largeCommunities, localPref :=
        c.asPath, c.communities, c.largeCommunities, c.localPref;
      this.hash, this.asPathStr, this.refCount := hash, asPathStr, refCount;
    }

    function Content(): AttrContent { AttrContent(asPath, communities, largeCommunities, localPref) }

    function ASPathString(): string
    {
      if |asPath| == 0 then "" else if asPathStr != "" then asPathStr else FormatASPath(asPath)
    }
  }

  // ---- AS path rendering ------------------------------------------------------------------

  function Decimal(n: nat): string
  {
    var digit := ['0' + (n % 10) as char];
    if n < 10 then digit else Decimal(n / 10) + digit
  }

  function FormatASPath(asPath: seq<uint32>): string
  {
    if |asPath| == 0 then ""
    else if |asPath| == 1 then Decimal(asPath[0])
    else Decimal(asPath[0]) + " " + FormatASPath(asPath[1..])
  }

  /** Reads a decimal number back. */
  function Value(s: string): int
  {
    if s == "" then 0 else 10 * Value(s[..|s| - 1]) + (s[|s| - 1] as int - '0' as int)
  }

  predicate Digits(s: string)
  {
    s != "" && forall i :: 0 <= i < |s| ==> '0' <= s[i] <= '9'
  }

  lemma {:induction false} DecimalReadsBack(n: nat)
    ensures Digits(Decimal(n)) && Value(Decimal(n)) == n
    ensures Decimal(n)[0] == '0' ==> n == 0
  {
    var s := Decimal(n);
    if n >= 10 {
      DecimalReadsBack(n / 10);
      assert s[..|s| - 1] == Decimal(n / 10);
    } else {
      assert s[..0] == "";
    }
  }

  /** Reads a rendered AS path back: numbers separated by single spaces. */
  function Numbers(s: string): seq<int>
  {
    var i := FirstSpace(s);
    if i == |s| then [Value(s)] else [Value(s[..i])] + Numbers(s[i + 1..])
  }

  function FirstSpace(s: string): (i: nat)
    ensures i <= |s| && (i < |s| ==> s[i] == ' ') && forall j :: 0 <= j < i ==> s[j] != ' '
  {
    if s == "" || s[0] == ' ' then 0 else 1 + FirstSpace(s[1..])
  }

  /** The rendering of an AS path determines it: reading it back gives the same AS numbers in the same
      order. The empty path renders as the empty string and no other does. */
  lemma {:induction false} RenderingReadsBack(asPath: seq<uint32>)
    ensures FormatASPath(asPath) == "" <==> asPath == []
    ensures asPath != [] ==> |Numbers(FormatASPath(asPath))| == |asPath|
    ensures asPath != [] ==> forall i :: 0 <= i < |asPath| ==> Numbers(FormatASPath(asPath))[i] == asPath[i]
  {
    if asPath != [] {
      var d, s := Decimal(asPath[0]), FormatASPath(asPath);
      DecimalReadsBack(asPath[0]);
      if |asPath| > 1 {
        RenderingReadsBack(asPath[1..]);
        NumberFirst(d, FormatASPath(asPath[1..]));
      } else {
        assert FirstSpace(s) == |s|;
      }
    }
  }

  lemma NumberFirst(d: string, rest: string)
    requires Digits(d)
    ensures Numbers(d + " " + rest) == [Value(d)] + Numbers(rest)
  {
    var s := d + " " + rest;
    assert s[|d|] == ' ' && forall j :: 0 <= j < |d| ==> s[j] == d[j];
    assert FirstSpace(s) == |d| && s[..|d|] == d && s[|d| + 1..] == rest;
  }

  /** One number alone is its decimal form; two paths one after the other have one space between. */
  lemma {:induction false} RenderingJoins(a: seq<uint32>, b: seq<uint32>)
    ensures |a| == 1 ==> FormatASPath(a) == Decimal(a[0])
    ensures a != [] && b != [] ==> FormatASPath(a + b) == FormatASPath(a) + " " + FormatASPath(b)
  {
    if |a| == 1 {
      assert (a + b)[1..] == b;
    } else if a != [] && b != [] {
      RenderingJoins(a[1..], b);
      assert (a + b)[1..] == a[1..] + b;
      var d, s, t := Decimal(a[0]), FormatASPath(a[1..]), FormatASPath(b);
      assert d + " " + (s + " " + t) == d + " " + s + " " + t;
    }
  }

  /** Heap bytes an entry owns beyond its struct. */
  function OwnedBytes(c: AttrContent): nat
  {
    |c.asPath| * 4 + |c.communities| * 4 + |c.largeCommunities| * 12 + |FormatASPath(c.asPath)|
  }

  // ---- Hashing ----------------------------------------------------------------------------

  function Mix(h: bv64, v: bv64): bv64
  {
    (h ^ v) * 1099511628211
  }

  function Word(n: nat): bv64
  {
    (n % 0x1_0000_0000_0000_0000) as bv64
  }

  function MixWords(h: bv64, s: seq<uint32>): bv64
  {
    if s == [] then h else Mix(MixWords(h, s[..|s| - 1]), Word(s[|s| - 1]))
  }

  function MixLarge(h: bv64, s: seq<LargeCommunity>): bv64
  {
    if s == [] then h
    else
      var lc := s[|s| - 1];
      Mix(Mix(Mix(MixLarge(h, s[..|s| - 1]), Word(lc.globalAdmin)), Word(lc.localData1)), Word(lc.localData2))
  }

  /** The hash as a function of content alone. */
  function Hash(c: AttrContent): uint64
  {
    HashWord(c) as int
  }

  function HashWord(c: AttrContent): bv64
  {
    var h0 := MixWords(Mix(14695981039346656037, Word(|c.asPath|)), c.asPath);
    var h1 := MixWords(Mix(h0, Word(|c.communities|)), c.communities);
    var h2 := MixLarge(Mix(h1, Word(|c.largeCommunities|)), c.largeCommunities);
    Mix(h2, Word(c.localPref))
  }

  /** What is hashed, word by word: each list after its length, the preference last. */
  function Words(c: AttrContent): seq<nat>
  {
    [|c.asPath|] + c.asPath + [|c.communities|] + c.communities +
    [|c.largeCommunities|] + Flat(c.largeCommunities) + [c.localPref]
  }

  function Flat(s: seq<LargeCommunity>): seq<nat>
  {
    if s == [] then []
    else
      var lc := s[|s| - 1];
      Flat(s[..|s| - 1]) + [lc.globalAdmin, lc.localData1, lc.localData2]
  }

  /** One round of the hash per word. */
  function Rounds(h: bv64, ws: seq<nat>): bv64
    decreases ws
  {
    if ws == [] then h else Rounds(Mix(h, Word(ws[0])), ws[1..])
  }

  lemma {:induction false} RoundsConcat(h: bv64, a: seq<nat>, b: seq<nat>)
    ensures Rounds(h, a + b) == Rounds(Rounds(h, a), b)
    decreases a
  {
    hide Mix, Word;
    if a == [] {
      assert a + b == b;
    } else {
      assert (a + b)[1..] == a[1..] + b;
      RoundsConcat(Mix(h, Word(a[0])), a[1..], b);
    }
  }

  lemma RoundsOne(h: bv64, n: nat)
    ensures Rounds(h, [n]) == Mix(h, Word(n))
  {
    hide Mix, Word;
    assert [n][1..] == [];
  }

  lemma {:induction false} WordsRounds(h: bv64, s: seq<uint32>)
    ensures MixWords(h, s) == Rounds(h, s)
  {
    hide Mix, Word;
    if s != [] {
      var n := |s| - 1;
      WordsRounds(h, s[..n]);
      RoundsConcat(h, s[..n], [s[n]]);
      RoundsOne(Rounds(h, s[..n]), s[n]);
      assert s == s[..n] + [s[n]];
    }
  }

  lemma {:induction false} LargeRounds(h: bv64, s: seq<LargeCommunity>)
    ensures MixLarge(h, s) == Rounds(h, Flat(s))
  {
    if s != [] {
      hide Mix, Word;
      var n, lc := |s| - 1, s[|s| - 1];
      LargeRounds(h, s[..n]);
      var g := MixLarge(h, s[..n]);
      RoundsConcat(h, Flat(s[..n]), [lc.globalAdmin, lc.localData1, lc.localData2]);
      RoundsThree(g, lc.globalAdmin, lc.localData1, lc.localData2);
    }
  }

  lemma RoundsThree(h: bv64, a: nat, b: nat, c: nat)
    ensures Rounds(h, [a, b, c]) == Mix(Mix(Mix(h, Word(a)), Word(b)), Word(c))
  {
    hide *;
    RoundsConcat(h, [a], [b, c]);
    RoundsOne(h, a);
    RoundsConcat(Mix(h, Word(a)), [b], [c]);
    RoundsOne(Mix(h, Word(a)), b);
    RoundsOne(Mix(Mix(h, Word(a)), Word(b)), c);
    assert [a, b, c] == [a] + [b, c] && [b, c] == [b] + [c];
  }

  /** The hash is one round per word of the content, whatever lists the words come from. */
  lemma HashIsRounds(c: AttrContent)
    ensures HashWord(c) == Rounds(14695981039346656037, Words(c))
  {
    hide Mix, Word, Rounds, MixWords, MixLarge, Flat;
    var seed: bv64 := 14695981039346656037;
    var w0, w1 := [|c.asPath|] + c.asPath, [|c.communities|] + c.communities;
    var w2 := [|c.largeCommunities|] + Flat(c.largeCommunities);
    ListRounds(seed, c.asPath);
    var h0 := Rounds(seed, w0);
    ListRounds(h0, c.communities);
    var h1 := Rounds(h0, w1);
    RoundsOne(h1, |c.largeCommunities|);
    LargeRounds(Mix(h1, Word(|c.largeCommunities|)), c.largeCommunities);
    RoundsConcat(h1, [|c.largeCommunities|], Flat(c.largeCommunities));
    RoundsOne(Rounds(h1, w2), c.localPref);
    RoundsConcat(seed, w0, w1);
    RoundsConcat(seed, w0 + w1, w2);
    RoundsConcat(seed, w0 + w1 + w2, [c.localPref]);
    assert Words(c) == w0 + w1 + w2 + [c.localPref];
  }

  lemma ListRounds(h: bv64, s: seq<uint32>)
    ensures Rounds(h, [|s|] + s) == MixWords(Mix(h, Word(|s|)), s)
  {
    hide *;
    RoundsOne(h, |s|);
    RoundsConcat(h, [|s|], s);
    WordsRounds(Mix(h, Word(|s|)), s);
  }

  /** The multiplier of a round has an inverse, so a round loses nothing. */
  function Unmix(z: bv64): bv64
  {
    z * 14886173955864302971
  }

  lemma UnmixTimes(x: bv64)
    ensures Unmix(x * 1099511628211) == x
  {
  }

  lemma MixIs(h: bv64, v: bv64)
    ensures Mix(h, v) == (h ^ v) * 1099511628211
  {
  }

  lemma MixBack(h: bv64, v: bv64)
    ensures Unmix(Mix(h, v)) == h ^ v
  {
    hide *;
    MixIs(h, v);
    UnmixTimes(h ^ v);
  }

  lemma MixApart(h: bv64, g: bv64, v: bv64, w: bv64)
    requires h ^ v != g ^ w
    ensures Mix(h, v) != Mix(g, w)
  {
    hide *;
    MixBack(h, v);
    MixBack(g, w);
  }

  lemma XorApart(h: bv64, g: bv64, v: bv64, w: bv64)
    ensures h != g ==> h ^ v != g ^ v
    ensures v != w ==> h ^ v != h ^ w
  {
  }

  lemma {:induction false} RoundsApart(h: bv64, g: bv64, ws: seq<nat>)
    requires h != g
    ensures Rounds(h, ws) != Rounds(g, ws)
    decreases ws
  {
    hide Mix, Word;
    if ws != [] {
      XorApart(h, g, Word(ws[0]), 0);
      MixApart(h, g, Word(ws[0]), Word(ws[0]));
      RoundsApart(Mix(h, Word(ws[0])), Mix(g, Word(ws[0])), ws[1..]);
    }
  }

  lemma DoubleWord(w: bv64)
    requires w as int < 0x8000_0000_0000_0000
    ensures (w << 1) as int == 2 * (w as int)
  {
    assert w < 0x8000_0000_0000_0000;
  }

  lemma DoubleWordAndOne(w: bv64)
    requires w as int < 0x8000_0000_0000_0000
    ensures ((w << 1) | 1) as int == 2 * (w as int) + 1
  {
    assert w < 0x8000_0000_0000_0000;
  }

  lemma {:induction false} WordWithValue(n: nat) returns (w: bv64)
    requires n < 0x1_0000_0000_0000_0000
    ensures w as int == n
  {
    if n == 0 {
      w := 0;
    } else {
      w := WordWithValue(n / 2);
      if n % 2 == 0 {
        DoubleWord(w);
        w := w << 1;
      } else {
        DoubleWordAndOne(w);
        w := (w << 1) | 1;
      }
    }
  }

  lemma WordBack(n: nat)
    requires n < 0x1_0000_0000_0000_0000
    ensures (n as bv64) as int == n
  {
    var w := WordWithValue(n);
  }

  lemma WordApart(x: nat, y: nat)
    requires x != y && x < 0x1_0000_0000_0000_0000 && y < 0x1_0000_0000_0000_0000
    ensures Word(x) != Word(y)
  {
    WordBack(x);
    WordBack(y);
  }

  /** Contents that differ in exactly one word never share a hash. */
  lemma OneWordApart(c: AttrContent, d: AttrContent, a: seq<nat>, x: nat, y: nat, b: seq<nat>)
    requires Words(c) == a + [x] + b && Words(d) == a + [y] + b
    requires x != y && x < 0x1_0000_0000_0000_0000 && y < 0x1_0000_0000_0000_0000
    ensures Hash(c) != Hash(d)
  {
    hide *;
    HashApart(c, d);
    HashIsRounds(c);
    HashIsRounds(d);
    var h := Rounds(14695981039346656037, a);
    WordApart(x, y);
    XorApart(h, h, Word(x), Word(y));
    MixApart(h, h, Word(x), Word(y));
    RoundsApart(Mix(h, Word(x)), Mix(h, Word(y)), b);
    ThreeParts(14695981039346656037, a, x, b);
    ThreeParts(14695981039346656037, a, y, b);
  }

  lemma HashApart(c: AttrContent, d: AttrContent)
    ensures HashWord(c) != HashWord(d) ==> Hash(c) != Hash(d)
  {
    hide HashWord;
    assert (HashWord(c) as int) as bv64 == HashWord(c) && (HashWord(d) as int) as bv64 == HashWord(d);
  }

  lemma ThreeParts(h: bv64, a: seq<nat>, x: nat, b: seq<nat>)
    ensures Rounds(h, a + [x] + b) == Rounds(Mix(Rounds(h, a), Word(x)), b)
  {
    hide *;
    RoundsConcat(h, a + [x], b);
    RoundsConcat(h, a, [x]);
    RoundsOne(Rounds(h, a), x);
  }

  /** The words determine the content: nothing that equality compares is left out of the hash. */
  lemma WordsDetermine(c: AttrContent, d: AttrContent)
    requires Words(c) == Words(d)
    ensures c == d
  {
    var (w, v) := (Words(c), Words(d));
    hide Flat;
    var n, m, k := |c.asPath|, |c.communities|, |c.largeCommunities|;
    assert w[0] == n && v[0] == |d.asPath|;
    assert w[1..n + 1] == c.asPath && v[1..n + 1] == d.asPath;
    assert w[n + 1] == m && v[n + 1] == |d.communities|;
    assert w[n + 2..n + m + 2] == c.communities && v[n + 2..n + m + 2] == d.communities;
    assert w[n + m + 2] == k && v[n + m + 2] == |d.largeCommunities|;
    FlatLength(c.largeCommunities);
    FlatLength(d.largeCommunities);
    assert w[n + m + 3..n + m + 3 * k + 3] == Flat(c.largeCommunities);
    assert v[n + m + 3..n + m + 3 * k + 3] == Flat(d.largeCommunities);
    FlatDetermines(c.largeCommunities, d.largeCommunities);
    assert w[n + m + 3 * k + 3] == c.localPref && v[n + m + 3 * k + 3] == d.localPref;
  }

  lemma {:induction false} FlatLength(s: seq<LargeCommunity>)
    ensures |Flat(s)| == 3 * |s|
  {
    if s != [] { FlatLength(s[..|s| - 1]); }
  }

  lemma {:induction false} FlatDetermines(s: seq<LargeCommunity>, t: seq<LargeCommunity>)
    requires |s| == |t| && Flat(s) == Flat(t)
    ensures s == t
  {
    if s != [] {
      var n := |s| - 1;
      FlatLength(s[..n]);
      FlatLength(t[..n]);
      var f := Flat(s);
      assert f[..3 * n] == Flat(s[..n]) && f[..3 * n] == Flat(t[..n]);
      assert f[3 * n] == s[n].globalAdmin == t[n].globalAdmin;
      assert f[3 * n + 1] == s[n].localData1 == t[n].localData1;
      assert f[3 * n + 2] == s[n].localData2 == t[n].localData2;
      FlatDetermines(s[..n], t[..n]);
      assert s == s[..n] + [s[n]] && t == t[..n] + [t[n]];
    }
  }

  /** The hash of the empty content, as a number: it fixes the seed and the multiplier. */
  lemma EmptyHash()
    ensures HashWord(EMPTY) == 5558979605539197941
  {
  }

  method HashWords(seed: bv64, s: seq<uint32>) returns (h: bv64)
    ensures h == MixWords(seed, s)
  {
    h := seed;
    for i := 0 to |s|
      invariant h == MixWords(seed, s[..i])
    {
      assert s[..i + 1][..i] == s[..i];
      h := Mix(h, Word(s[i]));
    }
    assert s[..|s|] == s;
  }

  method HashAttributes(attr: RouteAttributes?) returns (r: uint64)
    ensures r == if attr == null then 0 else Hash(attr.Content())
  {
    hide Mix, Word, MixWords;
    if attr == null {
      return 0;
    }
    var h := Mix(14695981039346656037, Word(|attr.asPath|));
    h := HashWords(h, attr.asPath);
    h := Mix(h, Word(|attr.communities|));
    h := HashWords(h, attr.communities);
    h := Mix(h, Word(|attr.largeCommunities|));
    ghost var seed := h;
    var s := attr.largeCommunities;
    for i := 0 to |s|
      invariant h == MixLarge(seed, s[..i])
    {
      assert s[..i + 1][..i] == s[..i];
      var lc := s[i];
      h := Mix(h, Word(lc.globalAdmin));
      h := Mix(h, Word(lc.localData1));
      h := Mix(h, Word(lc.localData2));
    }
    assert s[..|s|] == s;
    h := Mix(h, Word(attr.localPref));
    return h as int;
  }

  // ---- Equality ---------------------------------------------------------------------------

  method EqualSlices<T(==)>(a: seq<T>, b: seq<T>) returns (eq: bool)
    ensures eq == (a == b)
  {
    if |a| != |b| {
      return false;
    }
    for i := 0 to |a|
      invariant a[..i] == b[..i]
    {
      if a[i] != b[i] {
        return false;
      }
    }
    return true;
  }

  method EqualAttributes(a: RouteAttributes?, b: RouteAttributes?) returns (eq: bool)
    ensures eq <==> a == b || (a != null && b != null && a.Content() == b.Content())
  {
    if a == b {
      return true;
    }
    if a == null || b == null {
      return false;
    }
    if a.localPref != b.localPref {
      return false;
    }
    eq := EqualSlices(a.asPath, b.asPath);
    if !eq { return; }
    eq := EqualSlices(a.communities, b.communities);
    if !eq { return; }
    eq := EqualSlices(a.largeCommunities, b.largeCommunities);
  }

  // ---- Predicates used by queries -----------------------------------------------------------

  predicate OriginIs(c: AttrContent, asn: uint32)
  {
    |c.asPath| > 0 && c.asPath[|c.asPath| - 1] == asn
  }

  method HasCommunity(a: RouteAttributes?, comm: uint32) returns (found: bool)
    ensures found <==> a != null && comm in a.communities
  {
    if a == null {
      return false;
    }
    for i := 0 to |a.communities|
      invariant comm !in a.communities[..i]
    {
      if a.communities[i] == comm {
        return true;
      }
    }
    return false;
  }

  method HasLargeCommunity(a: RouteAttributes?, lc: LargeCommunity) returns (found: bool)
    ensures found <==> a != null && lc in a.largeCommunities
  {
    if a == null {
      return false;
    }
    for i := 0 to |a.largeCommunities|
      invariant lc !in a.largeCommunities[..i]
    {
      if a.largeCommunities[i] == lc {
        return true;
      }
    }
    return false;
  }

  /** The four whole-table queries; `re` stands for a compiled regular expression. */
  datatype Query =
    | Origin(asn: uint32)
    | Community(comm: uint32)
    | Large(lc: LargeCommunity)
    | AsPathRegex(re: string -> bool)
  {
    /** Evaluating the query on content, without any cache. */
    ghost predicate Holds(c: AttrContent)
    {
      match this
      case Origin(asn) => OriginIs(c, asn)
      case Community(comm) => comm in c.communities
      case Large(lc) => lc in c.largeCommunities
      case AsPathRegex(re) => re(FormatASPath(c.asPath))
    }
  }

  /** The origin is the last AS of the path; an empty path has none. */
  lemma OriginIsLast(c: AttrContent, front: seq<uint32>, n: uint32, asn: uint32)
    ensures c.asPath == front + [n] ==> (OriginIs(c, asn) <==> n == asn)
    ensures c.asPath == [] ==> !OriginIs(c, asn)
  {
  }

  /** What each query asks of a route, in its own words. */
  ghost predicate Meets(q: Query, c: AttrContent)
  {
    match q
    case Origin(asn) => exists front :: c.asPath == front + [asn]
    case Community(comm) => exists i :: 0 <= i < |c.communities| && c.communities[i] == comm
    case Large(lc) => exists i :: 0 <= i < |c.largeCommunities| && c.largeCommunities[i] == lc
    case AsPathRegex(re) => re(FormatASPath(c.asPath))
  }

  lemma HoldsMeets(q: Query, c: AttrContent)
    ensures q.Holds(c) <==> Meets(q, c)
  {
    match q
    case Origin(asn) =>
      if OriginIs(c, asn) { assert c.asPath == c.asPath[..|c.asPath| - 1] + [asn]; }
    case _ =>
  }

  /** Every stored entry caches the rendering of its own AS path (possibly the empty string). */
  predicate Rendered(a: RouteAttributes)
  {
    a.asPathStr == FormatASPath(a.asPath) || a.asPathStr == ""
  }

  /** A per-query matcher. For a regular expression it remembers the verdict per attribute
      pointer, and separately the last pointer it saw. */
  class Matcher {
    const query: Query
    var memo: map<RouteAttributes, bool>
    var last: RouteAttributes?
    var lastOK: bool

    /** Everything cached is what direct evaluation would say. */
    ghost predicate Valid()
      reads this
    {
      query.AsPathRegex? ==>
        && (last != null ==> lastOK == query.re(last.ASPathString()))
        && forall a :: a in memo ==> memo[a] == query.re(a.ASPathString())
    }

    constructor (query: Query)
      ensures Valid() && this.query == query
    {
      this.query, memo, last, lastOK := query, map[], null, false;
    }

    method MatchRegex(a: RouteAttributes?) returns (ok: bool)
      requires Valid() && query.AsPathRegex?
      modifies this
      ensures Valid() && ok == (a != null && query.re(a.ASPathString()))
    {
      if a == null {
        return false;
      }
      if a == last {
        return lastOK;
      }
      if a in memo {
        ok := memo[a];
      } else {
        ok := query.re(a.ASPathString());
        memo := memo[a := ok];
      }
      last, lastOK := a, ok;
    }

    /** The closure each query passes to the walk; caching never changes the verdict. */
    method Match(a: RouteAttributes) returns (ok: bool)
      requires Valid() && Rendered(a)
      modifies this
      ensures Valid() && ok == query.Holds(a.Content())
    {
      match query
      case Origin(asn) => ok := OriginIs(a.Content(), asn);
      case Community(comm) => ok := HasCommunity(a, comm);
      case Large(lc) => ok := HasLargeCommunity(a, lc);
      case AsPathRegex(re) => ok := MatchRegex(a);
    }
  }
}
