/** The attribute table as a value: hash buckets of canonical pointers with reference counts.

    `P` stands for a pointer to a stored entry. The heap table is proved to compute these
    functions, and the sharing protocol takes its steps with them. */
module AttrModel {
  import opened Attributes
  import opened Sums

  /** `hash` is the hash function; nothing below depends on which one, collisions included. */
  datatype Table<P> = Table(
    hash: AttrContent -> uint64,
    entries: map<uint64, seq<P>>,
    val: map<P, AttrContent>,   // content of each live entry
    refs: map<P, uint32>,       // its reference count
    attrCount: int,
    sliceBytes: int
  )

  /** 32-bit increment and decrement, wrapping around. */
  function Next(n: uint32): uint32
  {
    if n + 1 == TWO_32 then 0 else n + 1
  }

  function Prev(n: uint32): uint32
  {
    if n == 0 then TWO_32 - 1 else n - 1
  }

  ghost function Bucket<P>(t: Table<P>, h: uint64): seq<P>
  {
    if h in t.entries then t.entries[h] else []
  }

  /** Index of the first entry of a bucket with this content, or the bucket's length. */
  ghost function Find<P>(list: seq<P>, val: map<P, AttrContent>, c: AttrContent): (i: nat)
    ensures i <= |list| && (i < |list| ==> list[i] in val && val[list[i]] == c)
    ensures forall j :: 0 <= j < i ==> !(list[j] in val && val[list[j]] == c)
  {
    if list == [] || (list[0] in val && val[list[0]] == c) then 0 else 1 + Find(list[1..], val, c)
  }

  /** Looks content up, and either counts one more reference or files `spare` under it. */
  ghost function GetOrInsert<P>(t: Table<P>, c: AttrContent, spare: P): (r: (Table<P>, P))
  {
    var list := Bucket(t, t.hash(c));
    var i := Find(list, t.val, c);
    if i < |list| then
      var p := list[i];
      (t.(refs := t.refs[p := Next(if p in t.refs then t.refs[p] else 0)]), p)
    else
      (Table(t.hash, t.entries[t.hash(c) := list + [spare]], t.val[spare := c], t.refs[spare := 1],
             t.attrCount + 1, t.sliceBytes + OwnedBytes(c)), spare)
  }

  /** The members of a bucket that stay. */
  ghost function Keep<P>(list: seq<P>, alive: set<P>): (r: seq<P>)
    ensures forall p :: p in r ==> p in list && p in alive
    ensures forall p :: p in list && p in alive ==> p in r
  {
    if list == [] then [] else (if list[0] in alive then [list[0]] else []) + Keep(list[1..], alive)
  }

  /** Takes one entry out of its bucket, and the bucket out of the table when that empties it. */
  ghost function Remove<P>(t: Table<P>, p: P): Table<P>
    requires p in t.val
  {
    var h := t.hash(t.val[p]);
    var list := Keep(Bucket(t, h), t.val.Keys - {p});
    Table(t.hash, if list == [] then t.entries - {h} else t.entries[h := list], t.val - {p}, t.refs - {p},
          t.attrCount - 1, t.sliceBytes - OwnedBytes(t.val[p]))
  }

  /** Drops one reference; at zero the entry goes. */
  ghost function Release<P>(t: Table<P>, p: P): Table<P>
    requires p in t.refs && p in t.val
  {
    var r := Prev(t.refs[p]);
    if r == 0 then Remove(t, p) else t.(refs := t.refs[p := r])
  }

  /** How many references one batch entry takes: the count is cast to 32 bits, then clamped. */
  function Clamp(n: int, refs: uint32): uint32
  {
    if n <= 0 then 0 else if n % TWO_32 >= refs then refs else n % TWO_32
  }

  // ---- Consistency --------------------------------------------------------------------------

  ghost function BytesOf<P>(val: map<P, AttrContent>): int
  {
    SumInt(val.Keys, p => if p in val then OwnedBytes(val[p]) else 0)
  }

  /** Buckets hold exactly the live entries, each under its own hash, and none is empty. */
  ghost predicate Filed<P>(t: Table<P>)
  {
    && (forall h :: h in t.entries ==> t.entries[h] != [] && Distinct(t.entries[h]))
    && (forall h, p {:trigger p in t.entries[h]} :: h in t.entries && p in t.entries[h] ==>
          p in t.val && t.hash(t.val[p]) == h)
    && (forall p {:trigger t.val[p]} :: p in t.val ==> p in Bucket(t, t.hash(t.val[p])))
  }

  /** No two live entries have equal content. */
  ghost predicate Canonical<P>(t: Table<P>)
  {
    forall p, q {:trigger t.val[p], t.val[q]} :: p in t.val && q in t.val && t.val[p] == t.val[q] ==> p == q
  }

  /** Both statistics are exact. */
  ghost predicate Accounted<P>(t: Table<P>)
  {
    t.attrCount == |t.val| && t.sliceBytes == BytesOf(t.val)
  }

  ghost predicate Consistent<P>(t: Table<P>)
  {
    && Filed(t) && Canonical(t) && Accounted(t)
    && t.refs.Keys == t.val.Keys
    && (forall p :: p in t.refs ==> t.refs[p] > 0)
  }

  /** The reference counts are exactly the references in `held`. */
  ghost predicate Counts<P>(t: Table<P>, held: multiset<P>)
  {
    && (forall p :: p in t.refs ==> t.refs[p] == held[p])
    && (forall p :: p in held ==> p in t.refs)
  }

  ghost function EmptyTable<P>(hash: AttrContent -> uint64): Table<P>
  {
    Table(hash, map[], map[], map[], 0, 0)
  }

  lemma EmptyIsConsistent<P>(hash: AttrContent -> uint64)
    ensures Consistent(EmptyTable<P>(hash)) && Counts(EmptyTable<P>(hash), multiset{})
  {
    var val: map<P, AttrContent> := map[];
    assert val.Keys == {};
  }

  lemma BucketHasLiveEntry<P>(t: Table<P>, h: uint64)
    requires Filed(t) && h in t.entries
    ensures t.val != map[]
  {
    assert t.entries[h][0] in t.entries[h];
  }

  /** When nothing is held any more nothing is left: no bucket, no entry, no byte. */
  lemma NoLeak<P>(t: Table<P>)
    requires Consistent(t) && Counts(t, multiset{})
    ensures t == EmptyTable(t.hash)
  {
    assert t.val.Keys == {};
    forall h | h in t.entries ensures false {
      BucketHasLiveEntry(t, h);
    }
  }

  ghost function LiveHashes<P>(t: Table<P>): set<uint64>
  {
    set p | p in t.val :: t.hash(t.val[p])
  }

  lemma {:induction false} ImageSize<P>(val: map<P, AttrContent>, hash: AttrContent -> uint64)
    ensures var image := set p | p in val :: hash(val[p]);
      && |image| <= |val|
      && (|image| == |val| <==> forall p, q :: p in val && q in val && hash(val[p]) == hash(val[q]) ==> p == q)
    decreases |val|
  {
    var image := set p | p in val :: hash(val[p]);
    if val == map[] {
      assert image == {};
    } else {
      var p :| p in val;
      var rest := val - {p};
      ImageSize(rest, hash);
      var smaller := set q | q in rest :: hash(rest[q]);
      forall h ensures h in image <==> h in smaller + {hash(val[p])} {
        if h in image {
          var q :| q in val && hash(val[q]) == h;
          assert q != p ==> q in rest && hash(rest[q]) == h;
        }
        if h in smaller {
          var q :| q in rest && hash(rest[q]) == h;
          assert q in val && hash(val[q]) == h;
        }
      }
      assert image == smaller + {hash(val[p])};
      if hash(val[p]) in smaller {
        var q :| q in rest && hash(rest[q]) == hash(val[p]);
        assert q != p && hash(val[q]) == hash(val[p]);
      } else {
        assert forall q :: q in rest ==> rest[q] == val[q] && hash(rest[q]) in smaller;
      }
    }
  }

  /** Len counts buckets: it falls short of the number of attribute sets exactly when two of them
      collide. */
  lemma LenCountsHashes<P>(t: Table<P>)
    requires Consistent(t)
    ensures t.entries.Keys == LiveHashes(t) && |t.entries| <= t.attrCount
    ensures |t.entries| == t.attrCount <==>
      forall p, q :: p in t.val && q in t.val && t.hash(t.val[p]) == t.hash(t.val[q]) ==> p == q
  {
    hide BytesOf, Canonical, Filed, LiveHashes;
    BucketsAreHashes(t);
    ImageSize(t.val, t.hash);
    HashesAre(t);
    assert |t.entries.Keys| == |t.entries|;
  }

  lemma HashesAre<P>(t: Table<P>)
    ensures LiveHashes(t) == set p | p in t.val :: t.hash(t.val[p])
  {
  }

  lemma BucketsAreHashes<P>(t: Table<P>)
    requires Filed(t)
    ensures t.entries.Keys == LiveHashes(t)
  {
    forall h ensures h in t.entries <==> h in LiveHashes(t) {
      if h in t.entries { assert t.entries[h][0] in t.entries[h]; }
      if h in LiveHashes(t) {
        var p :| p in t.val && t.hash(t.val[p]) == h;
        assert p in Bucket(t, h);
      }
    }
  }

  lemma BucketLive<P>(t: Table<P>, h: uint64)
    requires Filed(t)
    ensures forall p :: p in Bucket(t, h) ==> p in t.val && t.hash(t.val[p]) == h
  {
  }

  ghost function TermOf<P>(val: map<P, AttrContent>, f: AttrContent -> int): P -> int
  {
    p => if p in val then f(val[p]) else 0
  }

  ghost function Total<P>(val: map<P, AttrContent>, f: AttrContent -> int): int
  {
    SumInt(val.Keys, TermOf(val, f))
  }

  lemma {:induction false} SumSplit<P>(s: set<P>, g: P -> int, a: P -> int, b: P -> int, c: P -> int, d: P -> int)
    requires forall p :: p in s ==> g(p) == 4 * a(p) + 4 * b(p) + 12 * c(p) + d(p)
    ensures SumInt(s, g) == 4 * SumInt(s, a) + 4 * SumInt(s, b) + 12 * SumInt(s, c) + SumInt(s, d)
    decreases |s|
  {
    if s != {} {
      var p :| p in s;
      SumSplit(s - {p}, g, a, b, c, d);
      PeelInt(s, g, p);
      PeelInt(s, a, p);
      PeelInt(s, b, p);
      PeelInt(s, c, p);
      PeelInt(s, d, p);
      hide SumInt;
    }
  }

  /** The byte statistic of a table: four bytes for every AS number and every community stored, twelve
      for every large community, and the rendered AS paths. */
  lemma BytesExact<P>(t: Table<P>)
    requires Consistent(t)
    ensures t.sliceBytes ==
      4 * Total(t.val, (c: AttrContent) => |c.asPath|) + 4 * Total(t.val, (c: AttrContent) => |c.communities|) +
      12 * Total(t.val, (c: AttrContent) => |c.largeCommunities|) +
      Total(t.val, (c: AttrContent) => |FormatASPath(c.asPath)|)
  {
    hide Filed, Canonical, FormatASPath, SumInt;
    SumSplit(t.val.Keys, p => if p in t.val then OwnedBytes(t.val[p]) else 0,
             TermOf(t.val, (c: AttrContent) => |c.asPath|), TermOf(t.val, (c: AttrContent) => |c.communities|),
             TermOf(t.val, (c: AttrContent) => |c.largeCommunities|),
             TermOf(t.val, (c: AttrContent) => |FormatASPath(c.asPath)|));
  }

  // ---- Lookup and insertion -------------------------------------------------------------------

  lemma AddBytes<P>(val: map<P, AttrContent>, p: P, c: AttrContent)
    requires p !in val
    ensures BytesOf(val[p := c]) == BytesOf(val) + OwnedBytes(c)
  {
    var w := val[p := c];
    PeelInt(w.Keys, q => if q in w then OwnedBytes(w[q]) else 0, p);
    assert w.Keys - {p} == val.Keys;
    SameTermsInt(val.Keys, q => if q in w then OwnedBytes(w[q]) else 0, q => if q in val then OwnedBytes(val[q])
        else 0);
  }

  /** Lookup finds an entry whenever one with this content exists anywhere in the table. */
  lemma FindComplete<P>(t: Table<P>, c: AttrContent)
    requires Consistent(t)
    ensures var list := Bucket(t, t.hash(c)); Find(list, t.val, c) < |list| <==> exists p :: p in t.val && t.val[p] == c
  {
    var list := Bucket(t, t.hash(c));
    var i := Find(list, t.val, c);
    if p :| p in t.val && t.val[p] == c {
      assert p in list;
      var j :| 0 <= j < |list| && list[j] == p;
      assert !(j < i);
    }
  }

  ghost function Counted<P>(t: Table<P>, p: P): Table<P>
    requires p in t.refs
  {
    t.(refs := t.refs[p := Next(t.refs[p])])
  }

  lemma CountedIsConsistent<P>(t: Table<P>, p: P)
    requires Consistent(t) && p in t.refs && t.refs[p] + 1 < TWO_32
    ensures Consistent(Counted(t, p))
  {
    hide Filed, Canonical, Accounted;
    FiledIgnoresRefs(t, Counted(t, p));
  }

  lemma CountMore<P>(refs: map<P, uint32>, held: multiset<P>, p: P)
    requires p in refs && refs[p] + 1 < TWO_32
    requires (forall q :: q in refs ==> refs[q] == held[q]) && (forall q :: q in held ==> q in refs)
    ensures forall q :: q in refs ==> refs[p := refs[p] + 1][q] == (held + multiset{p})[q]
    ensures forall q :: q in held + multiset{p} ==> q in refs
  {
  }

  lemma ReuseCorrect<P>(t: Table<P>, p: P, held: multiset<P>)
    requires Consistent(t) && Counts(t, held) && |held| + 1 < TWO_32 && p in t.val
    ensures Consistent(Counted(t, p)) && Counts(Counted(t, p), held + multiset{p})
  {
    hide Filed, Canonical, Accounted;
    HeldBound(held, p);
    CountMore(t.refs, held, p);
    CountedIsConsistent(t, p);
  }

  lemma FiledIgnoresRefs<P>(t: Table<P>, u: Table<P>)
    requires Filed(t) && u == t.(refs := u.refs)
    ensures Filed(u) && Canonical(t) == Canonical(u) && Accounted(t) == Accounted(u)
  {
    assert forall h :: Bucket(u, h) == Bucket(t, h);
  }

  ghost function Added<P>(t: Table<P>, c: AttrContent, p: P): Table<P>
  {
    Table(t.hash, t.entries[t.hash(c) := Bucket(t, t.hash(c)) + [p]], t.val[p := c], t.refs[p := 1],
          t.attrCount + 1, t.sliceBytes + OwnedBytes(c))
  }

  lemma AddedIsFiled<P>(t: Table<P>, c: AttrContent, p: P)
    requires Filed(t) && p !in t.val
    ensures Filed(Added(t, c, p))
  {
    var h := t.hash(c);
    var list, u := Bucket(t, h), Added(t, c, p);
    forall h', q | h' in u.entries && q in u.entries[h'] ensures q in u.val && u.hash(u.val[q]) == h' {
      assert q == p || q in Bucket(t, h');
    }
    forall h' | h' in u.entries ensures u.entries[h'] != [] && Distinct(u.entries[h']) {
      if h' == h { assert p !in list; }
    }
    forall q | q in u.val ensures q in Bucket(u, u.hash(u.val[q])) {
      assert q != p ==> q in Bucket(t, t.hash(t.val[q]));
      assert p in list + [p];
    }
  }

  lemma AddedIsConsistent<P>(t: Table<P>, c: AttrContent, p: P)
    requires Consistent(t) && p !in t.val && forall q :: q in t.val ==> t.val[q] != c
    ensures Consistent(Added(t, c, p))
  {
    hide Filed, Canonical, Accounted, BytesOf, Bucket;
    AddedIsFiled(t, c, p);
    AddedIsCanonical(t, c, p);
    AddedIsAccounted(t, c, p);
  }

  lemma AddedIsAccounted<P>(t: Table<P>, c: AttrContent, p: P)
    requires Accounted(t) && p !in t.val
    ensures Accounted(Added(t, c, p))
  {
    AddBytes(t.val, p, c);
    hide BytesOf, Bucket;
  }

  lemma AddedIsCanonical<P>(t: Table<P>, c: AttrContent, p: P)
    requires Canonical(t) && forall q :: q in t.val ==> t.val[q] != c
    ensures Canonical(Added(t, c, p))
  {
  }

  lemma AddedCounts<P>(t: Table<P>, c: AttrContent, p: P, held: multiset<P>)
    requires t.refs.Keys == t.val.Keys && Counts(t, held) && p !in t.val
    ensures Counts(Added(t, c, p), held + multiset{p})
  {
    CountOne(t.refs, held, p);
  }

  lemma CountOne<P>(refs: map<P, uint32>, held: multiset<P>, p: P)
    requires p !in refs && p !in held
    requires (forall q :: q in refs ==> refs[q] == held[q]) && (forall q :: q in held ==> q in refs)
    ensures forall q :: q in refs[p := 1] ==> refs[p := 1][q] == (held + multiset{p})[q]
    ensures forall q :: q in held + multiset{p} ==> q in refs[p := 1]
  {
  }

  /** The pointer handed out has the requested content, is live, and carries one more reference;
      everything live before stays live with its content. */
  lemma GetOrInsertCorrect<P>(t: Table<P>, c: AttrContent, spare: P, held: multiset<P>)
    requires Consistent(t) && Counts(t, held) && |held| + 1 < TWO_32
    requires spare in t.val ==> t.val[spare] == c
    ensures var (u, p) := GetOrInsert(t, c, spare);
      && Consistent(u) && Counts(u, held + multiset{p})
      && p in u.val && u.val[p] == c
      && (forall q :: q in t.val ==> q in u.val && u.val[q] == t.val[q])
      && (spare !in t.val ==> (p == spare <==> forall q :: q in t.val ==> t.val[q] != c))
  {
    var list := Bucket(t, t.hash(c));
    var i := Find(list, t.val, c);
    FindComplete(t, c);
    if i < |list| {
      assert GetOrInsert(t, c, spare) == (Counted(t, list[i]), list[i]);
      ReuseCorrect(t, list[i], held);
      assert t.val[list[i]] == c;
    } else {
      assert GetOrInsert(t, c, spare) == (Added(t, c, spare), spare);
      AddedIsConsistent(t, c, spare);
      AddedCounts(t, c, spare, held);
    }
  }

  /** Which of the two outcomes applies is decided by content alone. */
  lemma GetOrInsertCases<P>(t: Table<P>, c: AttrContent, p: P)
    requires Consistent(t)
    ensures p in t.val && t.val[p] == c ==> GetOrInsert(t, c, p) == (Counted(t, p), p)
    ensures (forall q :: q in t.val ==> t.val[q] != c) ==> GetOrInsert(t, c, p) == (Added(t, c, p), p)
  {
    FindComplete(t, c);
    BucketLive(t, t.hash(c));
    var list := Bucket(t, t.hash(c));
    var i := Find(list, t.val, c);
    if i < |list| && p in t.val && t.val[p] == c {
      assert t.val[list[i]] == t.val[p];
    }
  }

  /** Both outcomes in one: counting an entry with this content, or filing a new one. */
  lemma GetOrInsertStep<P>(t: Table<P>, u: Table<P>, c: AttrContent, p: P, held: multiset<P>)
    requires Consistent(t) && Counts(t, held) && |held| + 1 < TWO_32
    requires if p in t.val then t.val[p] == c && p in t.refs && u == Counted(t, p)
             else (forall q :: q in t.val ==> t.val[q] != c) && u == Added(t, c, p)
    ensures (u, p) == GetOrInsert(t, c, p) && Consistent(u) && Counts(u, held + multiset{p})
  {
    hide Filed, Canonical, Accounted, Counts, Counted, Added, GetOrInsert;
    GetOrInsertCases(t, c, p);
    GetOrInsertCorrect(t, c, p, held);
  }

  lemma HeldBound<P>(held: multiset<P>, p: P)
    ensures held[p] <= |held|
  {
    assert multiset{}[p := held[p]] <= held;
    assert |held| == |held - multiset{}[p := held[p]]| + |multiset{}[p := held[p]]|;
  }

  // ---- Release ----------------------------------------------------------------------------------

  /** Reference counts after the references in `m` are gone; entries that reach zero leave. */
  ghost function Reduce<P>(refs: map<P, uint32>, m: multiset<P>): map<P, uint32>
  {
    map p | p in refs && m[p] < refs[p] :: refs[p] - m[p]
  }

  ghost function Restrict<P, V>(m: map<P, V>, s: set<P>): (r: map<P, V>)
    ensures r.Keys == m.Keys * s
  {
    map p | p in m && p in s :: m[p]
  }

  ghost function KeepBuckets<P>(entries: map<uint64, seq<P>>, alive: set<P>): map<uint64, seq<P>>
  {
    map h | h in entries && Keep(entries[h], alive) != [] :: Keep(entries[h], alive)
  }

  /** The table cut down to the entries that still have a count. */
  ghost function CutTo<P>(t: Table<P>, refs: map<P, uint32>): Table<P>
  {
    var val := Restrict(t.val, refs.Keys);
    Table(t.hash, KeepBuckets(t.entries, refs.Keys), val, refs, |val|, BytesOf(val))
  }

  /** Drops the references in `m`, in no particular order: what every form of release amounts to. */
  ghost function Drop<P>(t: Table<P>, m: multiset<P>): Table<P>
  {
    CutTo(t, Reduce(t.refs, m))
  }

  lemma {:induction false} KeepTwice<P>(list: seq<P>, a: set<P>, b: set<P>)
    requires b <= a
    ensures Keep(Keep(list, a), b) == Keep(list, b)
  {
    if list != [] {
      KeepTwice(list[1..], a, b);
      var rest := Keep(list[1..], a);
      if list[0] in a {
        assert Keep(list, a) == [list[0]] + rest;
        assert ([list[0]] + rest)[1..] == rest;
      } else {
        assert Keep(list, a) == rest;
        assert Keep(list, b) == Keep(list[1..], b);
      }
    }
  }

  lemma {:induction false} KeepAll<P>(list: seq<P>, a: set<P>)
    requires forall p :: p in list ==> p in a
    ensures Keep(list, a) == list
  {
    if list != [] { KeepAll(list[1..], a); }
  }

  lemma {:induction false} KeepDistinct<P>(list: seq<P>, a: set<P>)
    requires Distinct(list)
    ensures Distinct(Keep(list, a))
  {
    if list != [] {
      var rest := list[1..];
      assert list[0] !in rest;
      KeepDistinct(rest, a);
    }
  }

  lemma CutIsFiled<P>(t: Table<P>, refs: map<P, uint32>)
    requires Filed(t) && refs.Keys <= t.val.Keys
    ensures Filed(CutTo(t, refs))
  {
    var u, alive := CutTo(t, refs), refs.Keys;
    forall h | h in u.entries ensures u.entries[h] != [] && Distinct(u.entries[h]) {
      KeepDistinct(t.entries[h], alive);
    }
    forall h, p | h in u.entries && p in u.entries[h] ensures p in u.val && u.hash(u.val[p]) == h {
      assert p in t.entries[h];
    }
    forall p | p in u.val ensures p in Bucket(u, u.hash(u.val[p])) {
      assert p in Bucket(t, t.hash(t.val[p]));
    }
  }

  lemma DropIsConsistent<P>(t: Table<P>, m: multiset<P>)
    requires Consistent(t)
    ensures Consistent(Drop(t, m))
  {
    hide Filed, Canonical, Keep, KeepBuckets, BytesOf;
    ReduceShrinks(t.refs, m);
    CutIsFiled(t, Reduce(t.refs, m));
    CutIsCanonical(t, Reduce(t.refs, m));
  }

  lemma CutIsCanonical<P>(t: Table<P>, refs: map<P, uint32>)
    requires Canonical(t)
    ensures Canonical(CutTo(t, refs))
  {
    hide KeepBuckets, BytesOf;
  }

  /** What is dropped comes off the books, and everything still held elsewhere stays live. */
  lemma DropCounts<P>(t: Table<P>, m: multiset<P>, held: multiset<P>)
    requires Counts(t, held) && m <= held
    ensures Counts(Drop(t, m), held - m)
    ensures forall p :: p in held - m && p in t.val ==> p in Drop(t, m).val && Drop(t, m).val[p] == t.val[p]
  {
    hide Keep, KeepBuckets, BytesOf;
    var u := Drop(t, m);
    forall p | p in u.refs ensures u.refs[p] == (held - m)[p] {
      assert m[p] <= held[p];
    }
    forall p | p in held - m ensures p in u.refs {
      assert (held - m)[p] > 0;
      assert p in held;
    }
  }

  lemma SameBuckets<P>(a: map<uint64, seq<P>>, b: map<uint64, seq<P>>)
    requires forall h :: (h in a <==> h in b) && (h in a ==> a[h] == b[h])
    ensures a == b
  {
  }

  lemma KeepBucketsTwice<P>(entries: map<uint64, seq<P>>, a: set<P>, b: set<P>)
    requires b <= a
    ensures KeepBuckets(KeepBuckets(entries, a), b) == KeepBuckets(entries, b)
  {
    var x, y := KeepBuckets(KeepBuckets(entries, a), b), KeepBuckets(entries, b);
    forall h ensures (h in x <==> h in y) && (h in x ==> x[h] == y[h]) {
      if h in entries {
        KeepTwice(entries[h], a, b);
        KeepEmpty<P>(b);
        hide Keep;
      }
    }
    SameBuckets(x, y);
  }

  lemma KeepEmpty<P>(a: set<P>)
    ensures Keep([], a) == []
  {
  }

  /** Dropping in two portions, in either order or split anywhere, is dropping at once. */
  lemma DropTwice<P>(t: Table<P>, m: multiset<P>, n: multiset<P>)
    ensures Drop(Drop(t, m), n) == Drop(t, m + n)
  {
    var a, b := Reduce(t.refs, m), Reduce(t.refs, m + n);
    ReduceTwice(t.refs, m, n);
    ReduceShrinks(a, n);
    hide Keep, KeepBuckets, BytesOf, Reduce, Restrict;
    KeepBucketsTwice(t.entries, a.Keys, b.Keys);
    RestrictTwice(t.val, a.Keys, b.Keys);
  }

  lemma ReduceShrinks<P>(refs: map<P, uint32>, m: multiset<P>)
    ensures Reduce(refs, m).Keys <= refs.Keys
  {
  }

  /** A bucket without a dying member is kept as it is. */
  lemma BucketKept<P>(t: Table<P>, alive: set<P>, h: uint64)
    requires Filed(t) && h in t.entries && forall p :: p in t.val && t.hash(t.val[p]) == h ==> p in alive
    ensures h in KeepBuckets(t.entries, alive) && KeepBuckets(t.entries, alive)[h] == t.entries[h]
  {
    KeepAll(t.entries[h], alive);
  }

  lemma AllBucketsKept<P>(t: Table<P>)
    requires Filed(t)
    ensures KeepBuckets(t.entries, t.val.Keys) == t.entries
  {
    forall h | h in t.entries
      ensures h in KeepBuckets(t.entries, t.val.Keys) && KeepBuckets(t.entries, t.val.Keys)[h] == t.entries[h]
    {
      BucketKept(t, t.val.Keys, h);
    }
  }

  lemma RestrictAll<P, V>(m: map<P, V>)
    ensures Restrict(m, m.Keys) == m
  {
  }

  lemma RestrictWithout<P, V>(m: map<P, V>, p: P)
    ensures Restrict(m, m.Keys - {p}) == m - {p}
  {
  }

  lemma RestrictTwice<P, V>(m: map<P, V>, a: set<P>, b: set<P>)
    requires b <= a
    ensures Restrict(Restrict(m, a), b) == Restrict(m, b)
  {
  }

  /** When every entry keeps a count only the counts change. */
  lemma CutNothing<P>(t: Table<P>, refs: map<P, uint32>)
    requires Filed(t) && Accounted(t) && refs.Keys == t.val.Keys
    ensures CutTo(t, refs) == t.(refs := refs)
  {
    AllBucketsKept(t);
    RestrictAll(t.val);
    hide Filed, Keep, KeepBuckets, BytesOf, Restrict;
  }

  lemma ReduceNothing<P>(refs: map<P, uint32>, m: multiset<P>)
    requires forall p :: p in refs ==> m[p] == 0 < refs[p]
    ensures Reduce(refs, m) == refs
  {
  }

  lemma ReduceTwice<P>(refs: map<P, uint32>, m: multiset<P>, n: multiset<P>)
    ensures Reduce(Reduce(refs, m), n) == Reduce(refs, m + n)
  {
  }

  lemma CopiesOne<P>(p: P)
    ensures Copies(p, 1) == multiset{p} == multiset([p])
    ensures forall q :: q != p ==> Copies(p, 1)[q] == 0
  {
  }

  lemma ReduceOne<P>(refs: map<P, uint32>, p: P, n: nat)
    requires p in refs && forall q :: q in refs ==> refs[q] > 0
    ensures n < refs[p] ==> Reduce(refs, Copies(p, n)) == refs[p := refs[p] - n]
    ensures n >= refs[p] ==> Reduce(refs, Copies(p, n)) == refs - {p}
  {
  }

  lemma DropNothing<P>(t: Table<P>, m: multiset<P>)
    requires Consistent(t) && forall p :: p in t.refs ==> m[p] == 0
    ensures Drop(t, m) == t
  {
    hide Filed, Canonical, Accounted, CutTo, Reduce;
    ReduceNothing(t.refs, m);
    CutNothing(t, t.refs);
  }

  ghost function Copies<P>(p: P, n: nat): multiset<P>
  {
    multiset{}[p := n]
  }

  lemma PartialDrop<P>(t: Table<P>, p: P, n: nat)
    requires Consistent(t) && p in t.refs && n < t.refs[p]
    ensures Drop(t, Copies(p, n)) == t.(refs := t.refs[p := t.refs[p] - n])
  {
    hide Filed, Canonical, Accounted, CutTo, Reduce, Copies;
    ReduceOne(t.refs, p, n);
    SameKeys(t.refs, p, t.refs[p] - n);
    CutNothing(t, t.refs[p := t.refs[p] - n]);
  }

  lemma SameKeys<P, V>(m: map<P, V>, p: P, v: V)
    requires p in m
    ensures m[p := v].Keys == m.Keys
  {
  }

  /** Cutting one entry out of the whole table only touches its own bucket. */
  lemma RemoveEntries<P>(t: Table<P>, p: P)
    requires Filed(t) && p in t.val
    ensures KeepBuckets(t.entries, t.val.Keys - {p}) == Remove(t, p).entries
  {
    var x, y := KeepBuckets(t.entries, t.val.Keys - {p}), Remove(t, p).entries;
    forall h ensures (h in x <==> h in y) && (h in x ==> x[h] == y[h]) {
      RemoveEntry(t, p, h);
    }
    hide KeepBuckets, Remove, Filed;
    SameBuckets(x, y);
  }

  lemma RemoveEntry<P>(t: Table<P>, p: P, h: uint64)
    requires Filed(t) && p in t.val
    ensures var x, y := KeepBuckets(t.entries, t.val.Keys - {p}), Remove(t, p).entries;
      (h in x <==> h in y) && (h in x ==> x[h] == y[h])
  {
    assert p in Bucket(t, t.hash(t.val[p]));
    if h in t.entries && h != t.hash(t.val[p]) { BucketKept(t, t.val.Keys - {p}, h); }
    hide Filed, Keep, BytesOf;
  }

  lemma RemoveBytes<P>(val: map<P, AttrContent>, p: P)
    requires p in val
    ensures BytesOf(val - {p}) == BytesOf(val) - OwnedBytes(val[p])
    ensures |val - {p}| == |val| - 1
  {
    AddBytes(val - {p}, p, val[p]);
    assert val == (val - {p})[p := val[p]];
  }

  lemma FullDrop<P>(t: Table<P>, p: P, n: nat)
    requires Consistent(t) && p in t.refs && n >= t.refs[p]
    ensures Drop(t, Copies(p, n)) == Remove(t, p)
  {
    hide Filed, Canonical, Keep, KeepBuckets, BytesOf, Reduce, Restrict, Copies, Bucket;
    ReduceOne(t.refs, p, n);
    RemoveEntries(t, p);
    RemoveBytes(t.val, p);
    RestrictWithout(t.val, p);
    assert (t.refs - {p}).Keys == t.val.Keys - {p} == (t.val - {p}).Keys;
  }

  lemma ReleaseIsDrop<P>(t: Table<P>, p: P)
    requires Consistent(t) && p in t.refs
    ensures Release(t, p) == Drop(t, Copies(p, 1))
  {
    hide Drop, Remove, Filed, Canonical, Accounted;
    if t.refs[p] == 1 {
      FullDrop(t, p, 1);
    } else {
      PartialDrop(t, p, 1);
    }
  }

  /** Releasing a held reference never underflows: the entry is live, and the books stay exact. */
  lemma ReleaseStep<P>(t: Table<P>, p: P, held: multiset<P>)
    requires Consistent(t) && Counts(t, held) && p in held
    ensures p in t.refs && p in t.val && t.refs[p] > 0
    ensures var u := Release(t, p);
      Consistent(u) && Counts(u, held - multiset{p}) && u.val.Keys <= t.val.Keys
  {
    hide Filed, Canonical, Accounted, Drop, Release, Copies;
    CopiesOne(p);
    ReleaseIsDrop(t, p);
    DropIsConsistent(t, Copies(p, 1));
    DropCounts(t, Copies(p, 1), held);
    DropKeys(t, Copies(p, 1));
  }

  lemma DropKeys<P>(t: Table<P>, m: multiset<P>)
    requires t.refs.Keys == t.val.Keys
    ensures Drop(t, m).val.Keys == Drop(t, m).refs.Keys <= t.val.Keys
    ensures forall p :: p in Drop(t, m).val ==> Drop(t, m).val[p] == t.val[p]
  {
    hide KeepBuckets, BytesOf;
  }

  lemma RemoveIgnoresCount<P>(t: Table<P>, p: P, r: uint32)
    requires p in t.val && p in t.refs
    ensures Remove(t.(refs := t.refs[p := r]), p) == Remove(t, p)
  {
    hide Keep, BytesOf;
    assert t.refs[p := r] - {p} == t.refs - {p};
  }

  // ---- Batches ----------------------------------------------------------------------------------

  /** Releasing references one after another, each under its own lock. */
  ghost function ReleaseEach<P>(t: Table<P>, s: seq<P>): Table<P>
  {
    if s == [] then t
    else
      var u := ReleaseEach(t, s[..|s| - 1]);
      var p := s[|s| - 1];
      if p in u.refs && p in u.val then Release(u, p) else u
  }

  /** What a batch with these counts takes from a table. */
  ghost function TakenOf<P>(t: Table<P>, counts: map<P, int>): P -> multiset<P>
  {
    p => if p in counts && p in t.refs then Copies(p, Clamp(counts[p], t.refs[p])) else multiset{}
  }

  ghost function Taken<P>(t: Table<P>, counts: map<P, int>, keys: set<P>): multiset<P>
  {
    SumOver(keys, TakenOf(t, counts))
  }

  lemma {:induction false} TakenAt<P>(t: Table<P>, counts: map<P, int>, keys: set<P>, p: P)
    ensures Taken(t, counts, keys)[p] == if p in keys then TakenOf(t, counts)(p)[p] else 0
    decreases |keys|
  {
    if keys != {} {
      var q :| q in keys;
      var f := TakenOf(t, counts);
      Peel(keys, f, q);
      TakenAt(t, counts, keys - {q}, p);
      assert (f(q) + Taken(t, counts, keys - {q}))[p] == f(q)[p] + Taken(t, counts, keys - {q})[p];
      assert q != p ==> f(q)[p] == 0;
    }
  }

  /** An entry not reached yet still has its original count. */
  lemma BatchUntouched<P>(t: Table<P>, counts: map<P, int>, done: set<P>, p: P)
    requires p in t.refs && t.refs[p] > 0 && p !in done
    ensures var u := Drop(t, Taken(t, counts, done)); p in u.refs && u.refs[p] == t.refs[p]
  {
    TakenAt(t, counts, done, p);
    hide Taken, KeepBuckets, BytesOf;
  }

  /** One more entry of a batch: the result depends on which entries are done, not on their order. */
  lemma BatchStep<P>(t: Table<P>, counts: map<P, int>, done: set<P>, p: P)
    requires p in counts && p !in done
    ensures Drop(t, Taken(t, counts, done + {p})) ==
      if counts[p] > 0 && p in t.refs
      then Drop(Drop(t, Taken(t, counts, done)), Copies(p, Clamp(counts[p], t.refs[p])))
      else Drop(t, Taken(t, counts, done))
  {
    Peel(done + {p}, TakenOf(t, counts), p);
    assert done + {p} - {p} == done;
    hide Drop, SumOver;
    var m := Taken(t, counts, done);
    if counts[p] > 0 && p in t.refs {
      var n := Copies(p, Clamp(counts[p], t.refs[p]));
      DropTwice(t, m, n);
      assert n + m == m + n;
    } else {
      CopiesZero(p);
      assert multiset{} + m == m;
    }
  }

  /** The two branches of a clamped release, in terms of removing references. */
  lemma ClampedDrop<P>(t: Table<P>, p: P, n: int)
    requires Consistent(t) && p in t.refs && n > 0
    ensures var u := Drop(t, Copies(p, Clamp(n, t.refs[p])));
      && Consistent(u)
      && (n % TWO_32 >= t.refs[p] ==> u == Remove(t, p))
      && (n % TWO_32 < t.refs[p] ==> u == t.(refs := t.refs[p := t.refs[p] - n % TWO_32]))
  {
    hide Consistent, Drop, Remove, Copies;
    DropIsConsistent(t, Copies(p, Clamp(n, t.refs[p])));
    if n % TWO_32 >= t.refs[p] {
      FullDrop(t, p, t.refs[p]);
    } else {
      PartialDrop(t, p, n % TWO_32);
    }
  }

  /** What a batch does to one entry of the table: a count of at least the entry's own, after the cast
      to 32 bits, removes it; a smaller one is subtracted; an entry not counted keeps its count. */
  lemma BatchOutcome<P>(t: Table<P>, counts: map<P, int>, p: P)
    requires Consistent(t) && p in t.refs
    ensures var u := Drop(t, Taken(t, counts, counts.Keys));
      if p !in counts || counts[p] <= 0 then p in u.refs && u.refs[p] == t.refs[p]
      else
        var n := counts[p] % TWO_32;
        && (n >= t.refs[p] ==> p !in u.refs && p !in u.val)
        && (n < t.refs[p] ==> p in u.refs && u.refs[p] == t.refs[p] - n)
  {
    TakenAt(t, counts, counts.Keys, p);
    DropKeys(t, Taken(t, counts, counts.Keys));
    hide Taken, KeepBuckets, BytesOf, Filed, Canonical, Accounted;
  }

  lemma CopiesZero<P>(p: P)
    ensures Copies(p, 0) == multiset{}
  {
  }

  lemma NothingTaken<P>(t: Table<P>, counts: map<P, int>)
    requires Consistent(t)
    ensures Drop(t, Taken(t, counts, {})) == t
  {
    DropNothing(t, Taken(t, counts, {}));
  }

  /** Releasing a sequence one by one drops exactly its multiset. */
  lemma {:induction false} ReleaseEachIsDrop<P>(t: Table<P>, s: seq<P>)
    requires Consistent(t)
    ensures ReleaseEach(t, s) == Drop(t, multiset(s))
  {
    hide Drop, Filed, Canonical, Accounted, Copies;
    if s == [] {
      DropNothing(t, multiset{});
    } else {
      var front, p := s[..|s| - 1], s[|s| - 1];
      assert s == front + [p];
      ReleaseEachIsDrop(t, front);
      var u := Drop(t, multiset(front));
      DropIsConsistent(t, multiset(front));
      DropTwice(t, multiset(front), Copies(p, 1));
      CopiesOne(p);
      if p in u.refs {
        ReleaseIsDrop(u, p);
      } else {
        DropNothing(u, Copies(p, 1));
      }
    }
  }

  /** `counts` tallies the multiset `m`. */
  ghost predicate Tallies<P>(counts: map<P, int>, m: multiset<P>)
  {
    && (forall p :: p in counts ==> counts[p] == m[p])
    && (forall p :: p in m ==> p in counts)
  }

  /** A batch tallied from references that are all held is never clamped: it takes exactly them. */
  lemma HonestBatch<P>(t: Table<P>, counts: map<P, int>, m: multiset<P>, held: multiset<P>)
    requires Counts(t, held) && m <= held && Tallies(counts, m)
    ensures forall p :: p in counts && counts[p] > 0 ==>
              p in t.refs && counts[p] <= t.refs[p] && Clamp(counts[p], t.refs[p]) == counts[p]
    ensures Taken(t, counts, counts.Keys) == m
  {
    forall p | p in counts && counts[p] > 0
      ensures p in t.refs && counts[p] <= t.refs[p] && Clamp(counts[p], t.refs[p]) == counts[p]
    {
      HonestCount(t, counts, m, held, p);
    }
    forall p: P ensures Taken(t, counts, counts.Keys)[p] == m[p] {
      TakenAt(t, counts, counts.Keys, p);
      if p in counts { HonestCount(t, counts, m, held, p); }
    }
    hide Taken, TakenOf, Clamp, Counts;
    Extensional(Taken(t, counts, counts.Keys), m);
  }

  lemma HonestCount<P>(t: Table<P>, counts: map<P, int>, m: multiset<P>, held: multiset<P>, p: P)
    requires Counts(t, held) && m <= held && Tallies(counts, m) && p in counts
    ensures counts[p] > 0 ==> p in t.refs && counts[p] <= t.refs[p] && Clamp(counts[p], t.refs[p]) == counts[p]
    ensures TakenOf(t, counts)(p)[p] == m[p]
  {
    assert m[p] <= held[p];
    if counts[p] > 0 { assert p in held; }
  }

  /** Batched release equals individual releases, whatever the order of either. */
  lemma BatchEqualsSingles<P>(t: Table<P>, counts: map<P, int>, s: seq<P>, held: multiset<P>)
    requires Consistent(t) && Counts(t, held) && multiset(s) <= held && Tallies(counts, multiset(s))
    ensures Drop(t, Taken(t, counts, counts.Keys)) == ReleaseEach(t, s)
  {
    HonestBatch(t, counts, multiset(s), held);
    ReleaseEachIsDrop(t, s);
  }
}
