/** The run-length tally that batches releases during a walk. */
module Tallies {
  import opened Attributes
  import opened AttrModel
  import opened AttrTables

  lemma BatchIsLive<P>(t: Table<P>, counts: map<P, int>, m: multiset<P>, held: multiset<P>)
    requires Counts(t, held) && m <= held && forall p :: p in counts ==> p in m
    ensures forall p :: p in counts ==> p in t.refs
  {
    forall p | p in counts ensures p in held {
      assert m[p] <= held[p];
    }
  }

  class AttrTally {
    var counts: map<RouteAttributes, int>
    var last: RouteAttributes?
    var lastN: int
    ghost var added: multiset<RouteAttributes>  // everything added since the last flush

    ghost function CountOf(p: RouteAttributes): int
      reads this
    {
      (if p in counts then counts[p] else 0) + (if p == last then lastN else 0)
    }

    /** Map and pending run together count every attribute as often as it was added. */
    ghost predicate Valid()
      reads this
    {
      && (last == null ==> counts == map[] && lastN == 0)
      && (last != null ==> lastN > 0 && last in added)
      && (forall p :: p in counts ==> p in added)
      && (forall p :: p in added ==> (p in counts || p == last) && CountOf(p) == added[p])
    }

    constructor ()
      ensures Valid() && added == multiset{}
    {
      counts, last, lastN, added := map[], null, 0, multiset{};
    }

    method Add(attr: RouteAttributes?)
      requires Valid()
      modifies this
      ensures Valid() && added == old(added) + (if attr == null then multiset{} else multiset{attr})
    {
      if attr == null {
        return;
      }
      added := added + multiset{attr};
      if last == attr {
        lastN := lastN + 1;
        return;
      }
      if last != null {
        counts := counts[last := (if last in counts then counts[last] else 0) + lastN];
      }
      last := attr;
      lastN := 1;
    }

    /** Flushes the pending run and releases the batch. The references being released are still
        held, so no count is clamped and nothing else loses its entry. */
    method Release(at: AttrTable, ghost held: multiset<RouteAttributes>)
      requires Valid() && at.Valid() && Counts(at.Model(), held) && added <= held
      modifies this, at, at.live`refCount
      ensures Valid() && added == multiset{}
      ensures at.Valid() && at.live <= old(at.live)
      ensures at.Model() == Drop(old(at.Model()), old(added))
      ensures Counts(at.Model(), held - old(added))
    {
      hide Consistent, Counts, Drop, Taken, Hash;
      ghost var t, m := at.Model(), added;
      DropCounts(t, m, held);
      var batch := Flush();
      assert at.Model() == t;
      HonestBatch(t, batch, m, held);
      BatchIsLive(t, batch, m, held);
      at.ModelParts();
      at.ReleaseN(batch);
    }

    /** Closes the pending run and hands over the map, which alone tallies everything added. */
    method Flush() returns (batch: map<RouteAttributes, int>)
      requires Valid()
      modifies this
      ensures Tallies(batch, old(added)) && forall p :: p in batch ==> p in old(added)
      ensures Valid() && added == multiset{}
    {
      batch := counts;
      if last != null {
        batch := batch[last := (if last in batch then batch[last] else 0) + lastN];
      }
      counts, last, lastN := map[], null, 0;
      added := multiset{};
    }
  }
}
