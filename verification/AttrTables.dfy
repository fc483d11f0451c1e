/** The attribute table and the release tally on the heap. */
module AttrTables {
  import opened Attributes
  import opened AttrModel
  import opened Sums

  lemma {:induction false} SpliceIsKeep<P>(list: seq<P>, alive: set<P>, i: nat)
    requires i < |list| && Distinct(list) && forall p :: p in list ==> p in alive
    ensures list[..i] + list[i + 1..] == Keep(list, alive - {list[i]})
  {
    if i == 0 {
      KeepAll(list[1..], alive - {list[0]});
    } else {
      var rest := list[1..];
      SpliceIsKeep(rest, alive, i - 1);
      assert list[..i] + list[i + 1..] == [list[0]] + (rest[..i - 1] + rest[i..]);
    }
  }

  /** When one entry has left every map, that is its removal. */
  lemma FewerEntries<P>(t: Table<P>, u: Table<P>, p: P, rest: seq<P>)
    requires p in t.val && rest == Keep(Bucket(t, t.hash(t.val[p])), t.val.Keys - {p})
    requires var h := t.hash(t.val[p]);
      u.hash == t.hash && u.entries == if rest == [] then t.entries[h := rest] - {h} else t.entries[h := rest]
    requires u.val.Keys == t.val.Keys - {p} && forall q :: q in u.val ==> u.val[q] == t.val[q]
    requires u.refs.Keys == t.refs.Keys - {p} && forall q :: q in u.refs ==> u.refs[q] == t.refs[q]
    requires u.attrCount == t.attrCount - 1 && u.sliceBytes == t.sliceBytes - OwnedBytes(t.val[p])
    ensures u == Remove(t, p)
  {
    hide Keep, OwnedBytes;
    assert u.val == t.val - {p};
    assert u.refs == t.refs - {p};
    var h := t.hash(t.val[p]);
    assert t.entries[h := rest] - {h} == t.entries - {h};
  }

  lemma BytesOwned(a: RouteAttributes)
    requires a.asPathStr == FormatASPath(a.asPath)
    ensures OwnedBytes(a.Content()) == |a.asPath| * 4 + |a.communities| * 4 + |a.largeCommunities| * 12 + |a.asPathStr|
  {
  }

  class AttrTable {
    var entries: map<uint64, seq<RouteAttributes>>
    var attrCount: int
    var sliceBytes: int
    ghost var live: set<RouteAttributes>

    ghost function Model(): Table<RouteAttributes>
      reads this, live
    {
      Table(Hash, entries, map p | p in live :: p.Content(), map p | p in live :: p.refCount, attrCount, sliceBytes)
    }

    /** The model is consistent, and every entry carries its own hash and rendered AS path. */
    ghost predicate Valid()
      reads this, live
    {
      && Consistent(Model())
      && forall p :: p in live ==> p.hash == Hash(p.Content()) && p.asPathStr == FormatASPath(p.asPath)
    }

    constructor ()
      ensures Valid() && fresh(live) && Counts(Model(), multiset{}) && Model() == EmptyTable(Hash)
    {
      entries, attrCount, sliceBytes, live := map[], 0, 0, {};
      new;
      EmptyIsConsistent<RouteAttributes>(Hash);
      assert Model() == EmptyTable(Hash);
    }

    method Len() returns (n: int)
      requires Valid()
      ensures n == |Model().entries|
    {
      n := |entries|;
    }

    /** The scan of one bucket. */
    method Lookup(a: RouteAttributes) returns (h: uint64, p: RouteAttributes?)
      requires Valid()
      ensures h == Hash(a.Content())
      ensures p != null ==> p in live && p.Content() == a.Content()
      ensures p == null ==> forall q :: q in live ==> q.Content() != a.Content()
    {
      hide RouteAttributes.Content, Hash, Canonical, Accounted;
      ghost var t := Model();
      h := HashAttributes(a);
      var list := if h in entries then entries[h] else [];
      assert list == Bucket(t, h);
      BucketLive(t, h);
      for i := 0 to |list|
        invariant forall j :: 0 <= j < i ==> list[j].Content() != a.Content()
      {
        var eq := EqualAttributes(list[i], a);
        if eq {
          assert list[i] in Bucket(t, h);
          return h, list[i];
        }
      }
      p := null;
      forall q | q in live ensures q.Content() != a.Content() {
        assert t.val[q] == q.Content() && q in Bucket(t, t.hash(t.val[q]));
      }
    }

    /** Counts one more reference to an existing entry. */
    method Count(p: RouteAttributes)
      requires p in live
      modifies p`refCount
      ensures Model() == Counted(old(Model()), p)
    {
      p.refCount := Next(p.refCount);
      assert Model().refs == old(Model()).refs[p := Next(old(p.refCount))];
      assert Model().val == old(Model()).val;
    }

    /** Files a deep copy under its hash, with one reference. */
    method Add(a: RouteAttributes, h: uint64) returns (p: RouteAttributes)
      requires h == Hash(a.Content())
      modifies this
      ensures fresh(p) && live == old(live) + {p} && p.Content() == a.Content()
      ensures Model() == Added(old(Model()), a.Content(), p)
      ensures p.hash == Hash(p.Content()) && p.asPathStr == FormatASPath(p.asPath)
    {
      hide Hash, FormatASPath;
      p := new RouteAttributes(a.Content(), h, FormatASPath(a.asPath), 1);
      entries := entries[h := (if h in entries then entries[h] else []) + [p]];
      attrCount := attrCount + 1;
      sliceBytes := sliceBytes + OwnedBytes(p.Content());
      live := live + {p};
      assert Model().val == old(Model()).val[p := p.Content()];
      assert Model().refs == old(Model()).refs[p := 1];
    }

    method GetOrInsert(attr: RouteAttributes?, ghost held: multiset<RouteAttributes>) returns (p: RouteAttributes)
      requires Valid() && Counts(Model(), held) && |held| + 1 < TWO_32
      modifies this, live`refCount
      ensures var c := if attr == null then EMPTY else attr.Content();
        p.Content() == c && (Model(), p) == AttrModel.GetOrInsert(old(Model()), c, p)
      ensures Valid() && Counts(Model(), held + multiset{p})
      ensures live == old(live) + {p} && fresh(live - old(live))
    {
      hide *;
      var a: RouteAttributes;
      if attr == null {
        a := new RouteAttributes(EMPTY, 0, "", 0);
      } else {
        a := attr;
      }
      p := CountOrAdd(a, held);
    }

    /** The entry with this content, counted once more or newly filed. */
    method CountOrAdd(a: RouteAttributes, ghost held: multiset<RouteAttributes>) returns (p: RouteAttributes)
      requires Valid() && Counts(Model(), held) && |held| + 1 < TWO_32
      modifies this, live`refCount
      ensures p.Content() == a.Content() && (Model(), p) == AttrModel.GetOrInsert(old(Model()), a.Content(), p)
      ensures Valid() && Counts(Model(), held + multiset{p})
      ensures live == old(live) + {p} && fresh(live - old(live))
    {
      hide Hash, FormatASPath, Filed, Canonical, Accounted, Counts, Counted, Added, AttrModel.GetOrInsert;
      ghost var t := Model();
      var h, existing := Lookup(a);
      if existing != null {
        p := existing;
        Count(p);
      } else {
        p := Add(a, h);
      }
      GetOrInsertStep(t, Model(), a.Content(), p, held);
    }

    /** Takes an entry out of its bucket; one that is not in the table is left alone. */
    method RemoveLocked(attr: RouteAttributes)
      requires Filed(Model())
      requires attr in live ==> attr.hash == Hash(attr.Content()) && attr.asPathStr == FormatASPath(attr.asPath)
      modifies this
      ensures attr in old(live) ==> Model() == Remove(old(Model()), attr) && live == old(live) - {attr}
      ensures attr !in old(live) ==> Model() == old(Model()) && live == old(live)
    {
      hide Hash, FormatASPath;
      ghost var t := Model();
      var list := if attr.hash in entries then entries[attr.hash] else [];
      assert attr in live ==> attr in Bucket(t, t.hash(t.val[attr]));
      BucketLive(t, attr.hash);
      for i := 0 to |list|
        invariant attr !in list[..i]
      {
        if list[i] == attr {
          SpliceIsKeep(list, live, i);
          assert t.val.Keys == live;
          DropEntry(attr, list[..i] + list[i + 1..]);
          return;
        }
      }
    }

    /** The bookkeeping once the entry is found. */
    method DropEntry(attr: RouteAttributes, rest: seq<RouteAttributes>)
      requires attr in live && attr.hash == Hash(attr.Content()) && attr.asPathStr == FormatASPath(attr.asPath)
      requires rest == Keep(Bucket(Model(), attr.hash), Model().val.Keys - {attr})
      modifies this
      ensures Model() == Remove(old(Model()), attr) && live == old(live) - {attr}
    {
      hide *;
      ghost var t := Model();
      ModelParts();
      BytesOwned(attr);
      entries := entries[attr.hash := rest];
      if |rest| == 0 {
        entries := entries - {attr.hash};
      }
      attrCount := attrCount - 1;
      sliceBytes := sliceBytes
        - (|attr.asPath| * 4 + |attr.communities| * 4 + |attr.largeCommunities| * 12 + |attr.asPathStr|);
      live := live - {attr};
      ModelParts();
      FewerEntries(t, Model(), attr, rest);
    }

    lemma ModelParts()
      ensures Model().hash == Hash && Model().entries == entries
      ensures Model().attrCount == attrCount && Model().sliceBytes == sliceBytes
      ensures Model().val.Keys == live && Model().refs.Keys == live
      ensures forall p :: p in live ==> Model().val[p] == p.Content() && Model().refs[p] == p.refCount
    {
    }

    method SetCount(p: RouteAttributes, r: uint32)
      modifies p`refCount
      ensures p in live ==> Model() == old(Model()).(refs := old(Model()).refs[p := r])
      ensures p !in live ==> Model() == old(Model())
      ensures p.refCount == r
    {
      p.refCount := r;
      assert p in live ==> Model().refs == old(Model()).refs[p := r];
      assert p !in live ==> Model().refs == old(Model()).refs;
      assert Model().val == old(Model()).val;
    }

    method Decrement(attr: RouteAttributes)
      requires Valid() && attr in live
      modifies this, live`refCount
      ensures Model() == AttrModel.Release(old(Model()), attr)
      ensures Valid() && live <= old(live)
    {
      hide Hash, FormatASPath, Filed, Canonical, Accounted, Remove, Drop, Copies;
      ghost var t := Model();
      ReleaseIsDrop(t, attr);
      DropIsConsistent(t, Copies(attr, 1));
      SetCount(attr, Prev(attr.refCount));
      FiledIgnoresRefs(t, Model());
      if attr.refCount == 0 {
        RemoveIgnoresCount(t, attr, 0);
        RemoveLocked(attr);
      }
    }

    /** Gives back one reference the caller holds. */
    method Release(attr: RouteAttributes?, ghost held: multiset<RouteAttributes>)
      requires Valid() && Counts(Model(), held) && (attr != null ==> attr in held)
      modifies this, live`refCount
      ensures attr == null ==> Model() == old(Model()) && live == old(live)
      ensures attr != null ==> attr in old(Model()).refs && Model() == AttrModel.Release(old(Model()), attr)
      ensures attr != null ==> Counts(Model(), held - multiset{attr})
      ensures Valid() && live <= old(live)
    {
      if attr == null {
        return;
      }
      hide Consistent, Counts, AttrModel.Release;
      ReleaseStep(Model(), attr, held);
      Decrement(attr);
    }

    /** One step of a batch: takes `n` references, clamped as the source does. */
    method ReleaseSome(attr: RouteAttributes, n: int)
      requires Valid()
      modifies this, live`refCount, attr`refCount
      ensures n > 0 && attr in old(live) ==> Model() == Drop(old(Model()), Copies(attr, Clamp(n, old(attr.refCount))))
      ensures n <= 0 || attr !in old(live) ==> Model() == old(Model())
      ensures Valid() && live <= old(live)
    {
      hide Hash, FormatASPath, Filed, Canonical, Accounted, Remove, Drop, Copies;
      if n <= 0 {
        return;
      }
      ghost var t := Model();
      if attr in live { ClampedDrop(t, attr, n); }
      if n % TWO_32 >= attr.refCount {
        SetCount(attr, 0);
        FiledIgnoresRefs(t, Model());
        if attr in live { RemoveIgnoresCount(t, attr, 0); }
        RemoveLocked(attr);
      } else {
        SetCount(attr, attr.refCount - n % TWO_32);
      }
    }

    /** The step of the loop below: `done` entries of the batch have been taken from `t` so far. */
    method ReleaseNext(attr: RouteAttributes, n: int, ghost t: Table<RouteAttributes>,
                       ghost counts: map<RouteAttributes, int>, ghost done: set<RouteAttributes>)
      requires Valid() && Consistent(t) && attr in counts && counts[attr] == n && attr !in done
      requires Model() == Drop(t, Taken(t, counts, done))
      modifies this, live`refCount, attr`refCount
      ensures Model() == Drop(t, Taken(t, counts, done + {attr}))
      ensures Valid() && live <= old(live)
    {
      hide Filed, Canonical, Accounted, Drop, Taken, TakenOf, Copies, Clamp;
      BatchStep(t, counts, done, attr);
      DropKeys(t, Taken(t, counts, done));
      ModelParts();
      if attr in t.refs {
        BatchUntouched(t, counts, done, attr);
      }
      ReleaseSome(attr, n);
    }

    /** Drops a whole tally. The map is consumed in an arbitrary order, as the source's is. Counts above
        an entry's own are clamped, and entries no longer in the table are ignored. */
    method ReleaseN(counts: map<RouteAttributes, int>)
      requires Valid()
      modifies this, live`refCount, counts.Keys`refCount
      ensures Model() == Drop(old(Model()), Taken(old(Model()), counts, counts.Keys))
      ensures Valid() && live <= old(live)
    {
      hide Drop, Taken, Filed, Canonical, Accounted;
      ghost var t := Model();
      NothingTaken(t, counts);
      var done: set<RouteAttributes> := {};
      while done != counts.Keys
        invariant done <= counts.Keys
        invariant Valid() && live <= old(live)
        invariant Model() == Drop(t, Taken(t, counts, done))
        decreases |counts.Keys - done|
      {
        var attr :| attr in counts.Keys && attr !in done;
        Remainder(counts.Keys, done, attr);
        ReleaseNext(attr, counts[attr], t, counts, done);
        done := done + {attr};
      }
    }
  }
}
