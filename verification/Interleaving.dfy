/** Safety of the sharing protocol over every interleaving: references are conserved at each step, no
    release underflows or is clamped, no entry in use disappears, and nothing leaks. */
module Interleaving {
  import opened Addressing
  import opened Attributes
  import opened AttrModel
  import opened PathSeq
  import opened Protocol
  import opened RibModel
  import opened Sums
  import opened Sweeps

  // ---- Locks --------------------------------------------------------------------------------------------

  lemma LocksSame(s: State, u: State, t: ThreadId)
    requires LocksAgree(s) && t in s.threads && u.threads.Keys == s.threads.Keys && u.ribs.Keys == s.ribs.Keys
    requires u.owner == s.owner && u.threads[t].Holds() == s.threads[t].Holds()
    requires u.threads[t].Waiting? ==> u.threads[t].rib in u.ribs
    requires forall x :: x in s.threads && x != t ==> u.threads[x] == s.threads[x]
    ensures LocksAgree(u)
  {
    forall x | x in u.threads ensures u.threads[x].Holds() == s.threads[x].Holds() {
    }
  }

  lemma LocksTaken(s: State, t: ThreadId, r: RibId)
    requires LocksAgree(s) && t in s.threads && s.threads[t].Holds() == None && r in s.ribs && r !in s.owner
    ensures LocksAgree(To(s, t, Locked(r)).(owner := s.owner[r := t]))
  {
  }

  lemma LocksDropped(s: State, u: State, t: ThreadId, r: RibId)
    requires LocksAgree(s) && t in s.threads && s.threads[t].Holds() == Some(r)
    requires u.threads.Keys == s.threads.Keys && u.ribs.Keys == s.ribs.Keys && u.owner == s.owner - {r}
    requires u.threads[t].Holds() == None && !u.threads[t].Waiting?
    requires forall x :: x in s.threads && x != t ==> u.threads[x] == s.threads[x]
    ensures LocksAgree(u)
  {
    forall x | x in u.threads && x != t ensures u.threads[x].Holds() == s.threads[x].Holds() {
    }
  }

  // ---- Content --------------------------------------------------------------------------------------------

  /** No live entry changes its content. */
  ghost predicate SameContent<P>(t: Table<P>, u: Table<P>)
  {
    forall p :: p in t.val && p in u.val ==> t.val[p] == u.val[p]
  }

  /** Everything held is live, with at least as many counts as any one holder has references. */
  lemma HeldIsLive(s: State, m: multiset<Ptr>)
    requires Conserved(s) && m <= Held(s)
    ensures forall p :: p in m ==> p in s.table.val && p in s.table.refs && s.table.refs[p] >= m[p]
  {
    hide Filed, Canonical, Accounted, Held;
    forall p | p in m ensures p in Held(s) && m[p] <= Held(s)[p] {
    }
  }

  /** Threads other than `t` keep honest hands when the table keeps the entries they hold. */
  lemma HandsStayHonest(s: State, u: State, t: ThreadId)
    requires HandsHonest(s) && SameContent(s.table, u.table) && t in s.threads && u.threads.Keys == s.threads.Keys
    requires forall x :: x in s.threads && x != t ==> u.threads[x] == s.threads[x]
    requires u.threads[t].Inserting? ==>
      u.threads[t].ptr in u.table.val && u.table.val[u.threads[t].ptr] == u.threads[t].content
    requires Conserved(u)
    ensures HandsHonest(u)
  {
    hide Conserved, Held;
    forall x | x in u.threads && u.threads[x].Inserting?
      ensures u.threads[x].ptr in u.table.val && u.table.val[u.threads[x].ptr] == u.threads[x].content
    {
      if x != t {
        HandInHeld(u, x);
        HeldIsLive(u, u.threads[x].Refs());
        assert u.threads[x].ptr in u.threads[x].Refs();
      }
    }
  }

  /** Flushes of other threads are not disturbed: the RIB lock keeps their RIBs as they are. */
  lemma SweepsStay(s: State, u: State, t: ThreadId)
    requires LocksAgree(s) && SweepsTracked(s) && t in s.threads && u.threads.Keys == s.threads.Keys
    requires forall x :: x in s.threads && x != t ==> u.threads[x] == s.threads[x]
    requires forall r :: r in s.ribs && s.threads[t].Holds() != Some(r) ==> r in u.ribs && u.ribs[r] == s.ribs[r]
    requires u.threads[t].Sweeping? ==> u.threads[t].rib in u.ribs && Tracked(u.threads[t], u.ribs[u.threads[t].rib])
    ensures SweepsTracked(u)
  {
    hide Tracked;
    forall x | x in u.threads && u.threads[x].Sweeping?
      ensures u.threads[x].rib in u.ribs && Tracked(u.threads[x], u.ribs[u.threads[x].rib])
    {
      if x != t {
        assert s.threads[x].Holds() == Some(s.threads[x].rib);
      }
    }
  }

  // ---- Steps without a table section --------------------------------------------------------------------

  /** A trie edit under the lock that only moves references around. */
  lemma EditKeepsInv(s: State, t: ThreadId, ph: Phase, r: RibId, m: Trie)
    requires Sane(s) && t in s.threads && r in s.ribs && s.threads[t].Holds() == ph.Holds() && !ph.Inserting?
    requires s.threads[t].Holds() == Some(r) && (ph.Sweeping? ==> Tracked(ph, m))
    requires WellFormed(m) && Occurrences(m) + ph.Refs() == Occurrences(s.ribs[r]) + s.threads[t].Refs()
    ensures Sane(Edit(s, t, ph, r, m))
  {
    hide WellFormed, Consistent, Counts, Held, Occurrences, Tracked;
    var u := Edit(s, t, ph, r, m);
    HeldSame(s, t, ph, r, m);
    LocksSame(s, u, t);
    HandsStayHonest(s, u, t);
    SweepsStay(s, u, t);
  }

  /** A step that changes nothing but the phase and perhaps the lock. */
  lemma PhaseKeepsInv(s: State, u: State, t: ThreadId, ph: Phase)
    requires Sane(s) && t in s.threads && !ph.Inserting? && ph.Refs() == s.threads[t].Refs()
    requires u == To(s, t, ph).(owner := u.owner) && LocksAgree(u)
    requires ph.Sweeping? ==> ph.rib in s.ribs && Tracked(ph, s.ribs[ph.rib])
    ensures Sane(u)
  {
    hide WellFormed, Consistent, Counts, Held, Occurrences, LocksAgree, Tracked;
    HeldTo(s, t, ph);
    SameHeld(s, u, To(s, t, ph));
    Drained(Held(u), Held(s), ph.Refs());
    HandsStayHonest(s, u, t);
    SweepsStay(s, u, t);
  }

  lemma SameHeld(s: State, u: State, v: State)
    requires u.ribs == v.ribs && u.threads == v.threads
    ensures Held(u) == Held(v)
  {
  }

  lemma Drained<P>(a: multiset<P>, b: multiset<P>, c: multiset<P>)
    requires a + c == b + c
    ensures a == b
  {
    forall p: P ensures a[p] == b[p] {
      assert (a + c)[p] == (b + c)[p];
    }
    Extensional(a, b);
  }

  lemma StepIdle(s: State, t: ThreadId, a: Action)
    requires Sane(s) && t in s.threads && s.threads[t].Idle? && Move(s, t, a).Some?
    ensures Sane(Move(s, t, a).value)
  {
    hide Sane, LocksAgree, Held;
    if a.Begin? {
      var u := Move(s, t, a).value;
      SaneParts(s);
      LocksSame(s, u, t);
      PhaseKeepsInv(s, u, t, Waiting(a.rib));
    }
  }

  lemma StepWaiting(s: State, t: ThreadId, a: Action)
    requires Sane(s) && t in s.threads && s.threads[t].Waiting? && Move(s, t, a).Some?
    ensures Sane(Move(s, t, a).value)
  {
    hide Sane, LocksAgree, Held;
    SaneParts(s);
    LocksTaken(s, t, s.threads[t].rib);
    PhaseKeepsInv(s, Move(s, t, a).value, t, Locked(s.threads[t].rib));
  }

  lemma StepBeginInsert(s: State, t: ThreadId, a: Action)
    requires Sane(s) && t in s.threads && s.threads[t].Locked? && a.BeginInsert? && Move(s, t, a).Some?
    ensures Sane(Move(s, t, a).value)
  {
    hide Sane, LocksAgree, Held;
    var u := Move(s, t, a).value;
    SaneParts(s);
    LocksSame(s, u, t);
    PhaseKeepsInv(s, u, t, Fetching(s.threads[t].rib, a.key, a.id, a.content));
  }

  lemma SaneParts(s: State)
    ensures Sane(s) <==> LocksAgree(s) && RibsWellFormed(s) && Conserved(s) && HandsHonest(s) && SweepsTracked(s)
    ensures Sane(s) ==> forall r :: r in s.ribs ==> WellFormed(s.ribs[r])
  {
  }

  lemma StepUnlock(s: State, t: ThreadId)
    requires Sane(s) && t in s.threads && s.threads[t].Locked? && Move(s, t, Unlock).Some?
    ensures Sane(Move(s, t, Unlock).value)
  {
    hide Sane, LocksAgree, Held;
    var u := Move(s, t, Unlock).value;
    SaneParts(s);
    LocksDropped(s, u, t, s.threads[t].rib);
    PhaseKeepsInv(s, u, t, Idle);
  }

  lemma StepBeginSweep(s: State, t: ThreadId)
    requires Sane(s) && t in s.threads && s.threads[t].Locked? && Move(s, t, BeginSweep).Some?
    ensures Sane(Move(s, t, BeginSweep).value)
  {
    hide Sane, LocksAgree, Held;
    var u := Move(s, t, BeginSweep).value;
    SaneParts(s);
    LocksSame(s, u, t);
    var r := s.threads[t].rib;
    SweepStarts(s.ribs[r], r);
    PhaseKeepsInv(s, u, t, Sweeping(r, multiset{}, {}, s.ribs[r]));
  }

  lemma SweepStarts(m: Trie, r: RibId)
    ensures Tracked(Sweeping(r, multiset{}, {}, m), m)
  {
    assert Occurrences(m) + multiset{} == Occurrences(m);
    assert {} + AllStale(m) == AllStale(m);
  }

  lemma StepEndSweep(s: State, t: ThreadId)
    requires Sane(s) && t in s.threads && s.threads[t].Sweeping? && Move(s, t, EndSweep).Some?
    ensures Sane(Move(s, t, EndSweep).value)
  {
    hide Sane, LocksAgree, Held;
    var u := Move(s, t, EndSweep).value;
    SaneParts(s);
    LocksDropped(s, u, t, s.threads[t].rib);
    PhaseKeepsInv(s, u, t, Flushing(s.threads[t].tally));
  }

  lemma StepDetach(s: State, t: ThreadId)
    requires Sane(s) && t in s.threads && s.threads[t].Locked? && Move(s, t, Detach).Some?
    ensures Sane(Move(s, t, Detach).value)
  {
    hide Sane, LocksAgree, Held, Consistent, Counts, Occurrences;
    var r, u := s.threads[t].rib, Move(s, t, Detach).value;
    SaneParts(s);
    var none: Trie := map[];
    EmptyOccurrences(none);
    HeldSame(s, t, Detached(s.ribs[r]), r, none);
    SameHeld(s, u, Edit(s, t, Detached(s.ribs[r]), r, none));
    LocksDropped(s, u, t, r);
    HandsStayHonest(s, u, t);
    SweepsStay(s, u, t);
    SaneParts(u);
  }

  lemma EmptyOccurrences(m: Trie)
    requires m == map[]
    ensures Occurrences(m) == multiset{} && WellFormed(m)
  {
    assert m.Keys == {};
  }

  lemma StepWalk(s: State, t: ThreadId, a: Action)
    requires Sane(s) && t in s.threads && s.threads[t].Detached? && Move(s, t, a).Some?
    ensures Sane(Move(s, t, a).value)
  {
    hide Sane, LocksAgree, Held, Occurrences;
    var u := Move(s, t, a).value;
    SaneParts(s);
    LocksSame(s, u, t);
    PhaseKeepsInv(s, u, t, Flushing(Occurrences(s.threads[t].trie)));
  }

  // ---- Trie edits under the RIB lock ----------------------------------------------------------------------

  lemma StepStore(s: State, t: ThreadId, a: Action)
    requires Sane(s) && t in s.threads && s.threads[t].Inserting? && Move(s, t, a).Some?
    ensures Sane(Move(s, t, a).value)
  {
    hide Sane, LocksAgree, Held, Occurrences, Insert, Displaced, WellFormed;
    var ph := s.threads[t];
    var m := s.ribs[ph.rib];
    SaneParts(s);
    EditsKeepWellFormed(m, ph.key, ph.id, ph.ptr);
    InsertConserves(m, ph.key, ph.id, ph.ptr);
    OnwardRefs(ph.rib, Displaced(At(m, ph.key), ph.id));
    EditKeepsInv(s, t, Onward(ph.rib, Displaced(At(m, ph.key), ph.id)), ph.rib, Insert(m, ph.key, ph.id, ph.ptr));
  }

  lemma OnwardRefs(r: RibId, d: Option<Ptr>)
    ensures Onward(r, d).Refs() == Ref(d) && Onward(r, d).Holds() == Some(r) && !Onward(r, d).Inserting?
  {
  }

  lemma StepRemove(s: State, t: ThreadId, k: Key, id: uint32)
    requires Sane(s) && t in s.threads && s.threads[t].Locked? && Move(s, t, RemovePath(k, id)).Some?
    ensures Sane(Move(s, t, RemovePath(k, id)).value)
  {
    hide Sane, LocksAgree, Held, Occurrences, RibModel.Delete, Deleted, WellFormed;
    var r := s.threads[t].rib;
    var m := s.ribs[r];
    SaneParts(s);
    EditsKeepWellFormed(m, k, id, 0);
    DeleteConserves(m, k, id);
    OnwardRefs(r, Deleted(At(m, k), id));
    EditKeepsInv(s, t, Onward(r, Deleted(At(m, k), id)), r, RibModel.Delete(m, k, id));
  }

  lemma StepMark(s: State, t: ThreadId)
    requires Sane(s) && t in s.threads && s.threads[t].Locked? && Move(s, t, MarkStale).Some?
    ensures Sane(Move(s, t, MarkStale).value)
  {
    hide Sane, LocksAgree, Held, Occurrences, RibModel.MarkAllStale, WellFormed;
    var r := s.threads[t].rib;
    SaneParts(s);
    EditsKeepWellFormed(s.ribs[r], Root(0), 0, 0);
    MarkConserves(s.ribs[r]);
    EditKeepsInv(s, t, Locked(r), r, RibModel.MarkAllStale(s.ribs[r]));
  }

  lemma StepSweep(s: State, t: ThreadId, k: Key)
    requires Sane(s) && t in s.threads && s.threads[t].Sweeping? && Move(s, t, SweepOne(k)).Some?
    ensures Sane(Move(s, t, SweepOne(k)).value)
  {
    hide Sane, LocksAgree, Held, Occurrences, RibModel.Delete, Deleted, WellFormed, Tracked;
    var ph := s.threads[t];
    var r := ph.rib;
    var m := s.ribs[r];
    var id := At(m, k)[FirstStale(At(m, k))].pathID;
    SaneParts(s);
    SweepTracked(s, t);
    EditsKeepWellFormed(m, k, id, 0);
    DeleteConserves(m, k, id);
    SweptIsTracked(ph, m, k, id);
    var d := Ref(Deleted(At(m, k), id));
    var left := Occurrences(RibModel.Delete(m, k, id));
    assert left + (ph.tally + d) == (left + d) + ph.tally;
    EditKeepsInv(s, t, Swept(ph, m, k, id), r, RibModel.Delete(m, k, id));
  }

  lemma SweepTracked(s: State, t: ThreadId)
    requires SweepsTracked(s) && t in s.threads && s.threads[t].Sweeping?
    ensures s.threads[t].rib in s.ribs && Tracked(s.threads[t], s.ribs[s.threads[t].rib])
  {
  }

  /** One more stale path gone: what survives is the same, and so is the account of what was there. */
  lemma SweptIsTracked(ph: Phase, m: Trie, k: Key, id: uint32)
    requires ph.Sweeping? && Tracked(ph, m) && WellFormed(m)
    requires var i := FirstStale(At(m, k)); i < |At(m, k)| && At(m, k)[i].pathID == id
    ensures Tracked(Swept(ph, m, k, id), RibModel.Delete(m, k, id))
  {
    hide Tracked, Occurrences, RibModel.Delete, Deleted, WellFormed, AllStale, DropStale, FirstStale, At, Ref;
    SweptSame(m, k, id);
    EmptiedOne(m, k, id);
    DeleteConserves(m, k, id);
    var after := RibModel.Delete(m, k, id);
    TrackedAfter(ph, m, after, Ref(Deleted(At(m, k), id)), if k in after then {} else {k});
  }

  lemma TrackedAfter(ph: Phase, m: Trie, after: Trie, d: multiset<Ptr>, gone: set<Key>)
    requires ph.Sweeping? && Tracked(ph, m) && DropStale(after) == DropStale(m)
    requires Occurrences(after) + d == Occurrences(m) && AllStale(m) == gone + AllStale(after)
    ensures Tracked(ph.(tally := ph.tally + d, emptied := ph.emptied + gone), after)
  {
    hide Occurrences, AllStale, DropStale;
    assert Occurrences(after) + (ph.tally + d) == (Occurrences(after) + d) + ph.tally;
    assert ph.emptied + (gone + AllStale(after)) == ph.emptied + gone + AllStale(after);
  }

  // ---- Table sections -----------------------------------------------------------------------------------

  lemma StepTakeRef(s: State, t: ThreadId, a: Action)
    requires Sane(s) && t in s.threads && s.threads[t].Fetching? && Move(s, t, a).Some?
    ensures Sane(Move(s, t, a).value) && SameContent(s.table, Move(s, t, a).value.table)
  {
    hide Sane, LocksAgree, Held, GetOrInsert, Consistent, Counts, WellFormed;
    var u := Move(s, t, a).value;
    var was := s.threads[t];
    var (v, p) := GetOrInsert(s.table, was.content, a.spare);
    var ph := Inserting(was.rib, was.key, was.id, p, was.content);
    SaneParts(s);
    GetOrInsertCorrect(s.table, was.content, a.spare, Held(s));
    HeldTo(s, t, ph);
    SameHeld(s, u, To(s, t, ph));
    assert Held(u) == Held(s) + multiset{p};
    LocksSame(s, u, t);
    HandsStayHonest(s, u, t);
    SweepsStay(s, u, t);
    SaneParts(u);
  }

  lemma StepDropRef(s: State, t: ThreadId, a: Action)
    requires Sane(s) && t in s.threads && s.threads[t].Displacing? && Move(s, t, a).Some?
    ensures Sane(Move(s, t, a).value) && SameContent(s.table, Move(s, t, a).value.table)
  {
    hide Sane, LocksAgree, Held, Release, Consistent, Counts, WellFormed;
    var u := Move(s, t, a).value;
    var r, p := s.threads[t].rib, s.threads[t].ptr;
    SaneParts(s);
    HandInHeld(s, t);
    assert p in s.threads[t].Refs();
    ReleaseStep(s.table, p, Held(s));
    ReleaseContent(s.table, p);
    HeldTo(s, t, Locked(r));
    SameHeld(s, u, To(s, t, Locked(r)));
    PaidOff(Held(u), Held(s), multiset{p}, multiset{}, multiset{p});
    LocksSame(s, u, t);
    HandsStayHonest(s, u, t);
    SweepsStay(s, u, t);
    SaneParts(u);
  }

  lemma ReleaseContent<P>(t: Table<P>, p: P)
    requires Consistent(t) && p in t.refs && p in t.val
    ensures SameContent(t, Release(t, p))
  {
  }

  lemma ConsistentParts<P>(t: Table<P>)
    ensures Consistent(t) ==> t.refs.Keys == t.val.Keys
  {
  }

  /** Releasing one entry of a tally: every reference in it is still held, so the clamp never acts. */
  lemma FlushCounts(t: Table<Ptr>, tally: multiset<Ptr>, held: multiset<Ptr>, p: Ptr)
    requires Consistent(t) && Counts(t, held) && tally <= held && p in tally
    ensures p in t.refs && tally[p] <= t.refs[p] && Clamp(tally[p], t.refs[p]) == tally[p]
    ensures var u := Drop(t, Copies(p, tally[p]));
      Consistent(u) && Counts(u, held - Copies(p, tally[p])) && SameContent(t, u)
  {
    hide Consistent, Drop;
    assert tally[p] <= held[p] && p in held;
    ConsistentParts(t);
    DropIsConsistent(t, Copies(p, tally[p]));
    DropCounts(t, Copies(p, tally[p]), held);
    DropKeys(t, Copies(p, tally[p]));
  }

  lemma TakeOut<P>(tally: multiset<P>, p: P)
    ensures tally[p := 0] + Copies(p, tally[p]) == tally
  {
    Extensional(tally[p := 0] + Copies(p, tally[p]), tally);
  }

  lemma PaidOff<P>(after: multiset<P>, held: multiset<P>, all: multiset<P>, rest: multiset<P>, gone: multiset<P>)
    requires after + all == held + rest && rest + gone == all <= held
    ensures after == held - gone
  {
    forall p: P ensures after[p] == (held - gone)[p] {
      assert (after + all)[p] == (held + rest)[p];
      assert (rest + gone)[p] == all[p] <= held[p];
    }
    Extensional(after, held - gone);
  }

  lemma StepFlush(s: State, t: ThreadId, p: Ptr)
    requires Sane(s) && t in s.threads && s.threads[t].Flushing? && Move(s, t, FlushOne(p)).Some?
    ensures Sane(Move(s, t, FlushOne(p)).value) && SameContent(s.table, Move(s, t, FlushOne(p)).value.table)
  {
    hide Sane, LocksAgree, Held, Drop, Consistent, Counts, WellFormed, Clamp, Copies;
    var u := Move(s, t, FlushOne(p)).value;
    var tally := s.threads[t].tally;
    SaneParts(s);
    HandInHeld(s, t);
    FlushCounts(s.table, tally, Held(s), p);
    TakeOut<Ptr>(tally, p);
    HeldTo(s, t, Flushing(tally[p := 0]));
    SameHeld(s, u, To(s, t, Flushing(tally[p := 0])));
    PaidOff(Held(u), Held(s), tally, tally[p := 0], Copies<Ptr>(p, tally[p]));
    LocksSame(s, u, t);
    HandsStayHonest(s, u, t);
    SweepsStay(s, u, t);
    SaneParts(u);
  }

  lemma StepFinish(s: State, t: ThreadId)
    requires Sane(s) && t in s.threads && s.threads[t].Flushing? && Move(s, t, FinishFlush).Some?
    ensures Sane(Move(s, t, FinishFlush).value)
  {
    hide Sane, LocksAgree, Held;
    var u := Move(s, t, FinishFlush).value;
    SaneParts(s);
    LocksSame(s, u, t);
    PhaseKeepsInv(s, u, t, Idle);
  }

  // ---- Every step, every run ------------------------------------------------------------------------------

  lemma MoveKeepsSane(s: State, t: ThreadId, a: Action)
    requires Sane(s) && t in s.threads && Move(s, t, a).Some?
    ensures Sane(Move(s, t, a).value) && SameContent(s.table, Move(s, t, a).value.table)
  {
    hide Sane, SameContent, Held;
    if !InSection(a) { QuietTable(s, t, a); }
    SameTable(s.table);
    match s.threads[t]
    case Idle => StepIdle(s, t, a);
    case Waiting(_) => StepWaiting(s, t, a);
    case Locked(_) => LockedKeepsSane(s, t, a);
    case Fetching(_, _, _, _) => StepTakeRef(s, t, a);
    case Inserting(_, _, _, _, _) => StepStore(s, t, a);
    case Displacing(_, _) => StepDropRef(s, t, a);
    case Sweeping(_, _, _, _) => if a.EndSweep? { StepEndSweep(s, t); } else { StepSweep(s, t, a.key); }
    case Detached(_) => StepWalk(s, t, a);
    case Flushing(_) => if a.FlushOne? { StepFlush(s, t, a.ptr); } else { StepFinish(s, t); }
  }

  lemma LockedKeepsSane(s: State, t: ThreadId, a: Action)
    requires Sane(s) && t in s.threads && s.threads[t].Locked? && Move(s, t, a).Some?
    ensures Sane(Move(s, t, a).value)
  {
    hide Sane, Held;
    match a
    case Unlock => StepUnlock(s, t);
    case BeginInsert(_, _, _) => StepBeginInsert(s, t, a);
    case RemovePath(k, id) => StepRemove(s, t, k, id);
    case MarkStale => StepMark(s, t);
    case BeginSweep => StepBeginSweep(s, t);
    case Detach => StepDetach(s, t);
    case _ =>
  }

  lemma SameTable(t: Table<Ptr>)
    ensures SameContent(t, t)
  {
  }

  /** Only taking and giving back references touches the table. */
  lemma QuietTable(s: State, t: ThreadId, a: Action)
    requires t in s.threads && Move(s, t, a).Some? && !InSection(a)
    ensures Move(s, t, a).value.table == s.table
  {
    hide Held, GetOrInsert, Drop, Release, Insert, RibModel.Delete, RibModel.MarkAllStale, DropStale, Occurrences;
    hide Swept, Displaced, Deleted, Clamp, Copies;
  }

  /** What a move leaves alone: the table lock, the phases of other threads, and every RIB its thread
      does not hold, except that it may take the lock of one. */
  ghost predicate Local(s: State, u: State, t: ThreadId)
    requires t in s.threads
  {
    && u.lock == s.lock && u.threads.Keys == s.threads.Keys && u.ribs.Keys == s.ribs.Keys
    && (forall x :: x in s.threads && x != t ==> u.threads[x] == s.threads[x])
    && (forall r :: r in s.ribs && s.threads[t].Holds() != Some(r) ==> u.ribs[r] == s.ribs[r])
    && (forall r :: r in s.owner && s.threads[t].Holds() != Some(r) ==> r in u.owner && u.owner[r] == s.owner[r])
    && (forall r :: r in u.owner && r !in s.owner ==> u.owner[r] == t && u.threads[t].Locked?)
  }

  lemma PhaseIsLocal(s: State, u: State, t: ThreadId)
    requires t in s.threads && t in u.threads && u.threads == s.threads[t := u.threads[t]] && u.lock == s.lock
    requires u.ribs == s.ribs
    requires u.owner == s.owner
          || (s.threads[t].Holds().Some? && u.owner == s.owner - {s.threads[t].Holds().value})
          || (exists r: RibId :: r !in s.owner && u.owner == s.owner[r := t] && u.threads[t].Locked?)
    ensures Local(s, u, t)
  {
  }

  lemma EditIsLocal(s: State, u: State, t: ThreadId, r: RibId, m: Trie)
    requires t in s.threads && t in u.threads && u.threads == s.threads[t := u.threads[t]] && u.lock == s.lock
    requires s.threads[t].Holds() == Some(r) && r in s.ribs && u.ribs == s.ribs[r := m]
    requires u.owner == s.owner || u.owner == s.owner - {r}
    ensures Local(s, u, t)
  {
  }

  lemma LockedIsLocal(s: State, t: ThreadId, a: Action)
    requires t in s.threads && s.threads[t].Locked? && s.threads[t].rib in s.ribs
    requires FromLocked(s, t, s.threads[t].rib, a).Some?
    ensures Local(s, FromLocked(s, t, s.threads[t].rib, a).value, t)
  {
    hide RibModel.Delete, RibModel.MarkAllStale, Deleted, Local;
    var r := s.threads[t].rib;
    var u := FromLocked(s, t, r, a).value;
    if a.RemovePath? || a.MarkStale? || a.Detach? {
      EditIsLocal(s, u, t, r, u.ribs[r]);
    } else {
      PhaseIsLocal(s, u, t);
    }
  }

  lemma SweepingIsLocal(s: State, t: ThreadId, a: Action)
    requires t in s.threads && s.threads[t].Sweeping? && s.threads[t].rib in s.ribs
    requires FromSweeping(s, t, s.threads[t].rib, a).Some?
    ensures Local(s, FromSweeping(s, t, s.threads[t].rib, a).value, t)
  {
    hide RibModel.Delete, DropStale, Swept, Local;
    var r := s.threads[t].rib;
    var u := FromSweeping(s, t, r, a).value;
    if a.SweepOne? {
      EditIsLocal(s, u, t, r, u.ribs[r]);
    } else {
      PhaseIsLocal(s, u, t);
    }
  }

  lemma IdleIsLocal(s: State, t: ThreadId, a: Action)
    requires t in s.threads && s.threads[t].Idle? && Move(s, t, a).Some?
    ensures Local(s, Move(s, t, a).value, t)
  {
    hide Local;
    if a.Peek? { assert s.threads == s.threads[t := Idle]; }
    PhaseIsLocal(s, Move(s, t, a).value, t);
  }

  lemma MoveIsLocal(s: State, t: ThreadId, a: Action)
    requires t in s.threads && Move(s, t, a).Some?
    ensures Local(s, Move(s, t, a).value, t)
  {
    hide Held, GetOrInsert, Drop, Release, Occurrences, Insert, FromLocked, FromSweeping;
    hide Displaced, Clamp, Copies, Local;
    var u := Move(s, t, a).value;
    match s.threads[t]
    case Idle => IdleIsLocal(s, t, a);
    case Locked(_) => LockedIsLocal(s, t, a);
    case Sweeping(_, _, _, _) => SweepingIsLocal(s, t, a);
    case Inserting(r, _, _, _, _) => EditIsLocal(s, u, t, r, u.ribs[r]);
    case _ => PhaseIsLocal(s, u, t);
  }

  /** Where a table section leaves its thread. */
  lemma SectionLeads(s: State, t: ThreadId, a: Action)
    requires t in s.threads && Move(s, t, a).Some? && InSection(a)
    ensures var ph := Move(s, t, a).value.threads[t]; ph.Inserting? || ph.Locked? || ph.Flushing?
  {
    hide Held, GetOrInsert, Drop, Release, Occurrences, Insert, RibModel.Delete, RibModel.MarkAllStale, DropStale;
    hide Displaced, Clamp, Copies, Swept;
  }

  lemma StructureIgnoresLock(s: State, l: TableLock)
    requires Sane(s)
    ensures var u := s.(lock := l); LocksAgree(u) && RibsWellFormed(u) && HandsHonest(u) && SweepsTracked(u)
  {
    hide Conserved, WellFormed, Tracked;
  }

  lemma SaneIgnoresLock(s: State, l: TableLock)
    requires Sane(s)
    ensures Sane(s.(lock := l))
  {
    hide Held, Consistent, Counts, LocksAgree, RibsWellFormed, HandsHonest, SweepsTracked;
    StructureIgnoresLock(s, l);
    SameHeld(s, s.(lock := l), s);
  }

  /** What a step is made of. */
  lemma AdvanceParts(s: State, t: ThreadId, a: Action)
    requires t in s.threads && Advance(s, t, a).Some?
    ensures var u := Advance(s, t, a).value;
      && (a.AcquireTable? ==> s.lock == Free && s.threads[t].Wants() && u == s.(lock := Taken(t, false)))
      && (a.ReleaseTable? ==> s.lock == Taken(t, true) && u == s.(lock := Free))
      && (!a.AcquireTable? && !a.ReleaseTable? ==>
            && HasTable(s, t) == InSection(a) && Move(s, t, a).Some?
            && u == Move(s, t, a).value.(lock := if InSection(a) then Taken(t, true) else s.lock))
  {
    hide Move;
    if !a.AcquireTable? && !a.ReleaseTable? { MoveIsLocal(s, t, a); }
  }

  /** The table lock stays with a thread that has its work to do or has done some. */
  lemma StepKeepsTable(s: State, t: ThreadId, a: Action)
    requires TableAgrees(s) && t in s.threads && Advance(s, t, a).Some?
    ensures TableAgrees(Advance(s, t, a).value)
  {
    AdvanceParts(s, t, a);
    hide Advance, Move;
    if !a.AcquireTable? && !a.ReleaseTable? {
      MoveIsLocal(s, t, a);
      if InSection(a) { SectionLeads(s, t, a); }
    }
  }

  /** One step of any thread keeps the invariant and changes no live content. */
  lemma StepKeepsInv(s: State, t: ThreadId, a: Action)
    requires Inv(s) && t in s.threads && Advance(s, t, a).Some?
    ensures Inv(Advance(s, t, a).value) && SameContent(s.table, Advance(s, t, a).value.table)
  {
    StepKeepsTable(s, t, a);
    AdvanceParts(s, t, a);
    hide Advance, Move, Sane, TableAgrees;
    if a.AcquireTable? || a.ReleaseTable? {
      SaneIgnoresLock(s, Advance(s, t, a).value.lock);
    } else {
      MoveKeepsSane(s, t, a);
      SaneIgnoresLock(Move(s, t, a).value, Advance(s, t, a).value.lock);
    }
  }

  datatype Step = Step(thread: ThreadId, action: Action)

  /** The state after a run, or None if some step of it was not possible. */
  ghost function Run(s: State, steps: seq<Step>): Option<State>
  {
    if steps == [] then Some(s)
    else
      var n := |steps| - 1;
      var u := Run(s, steps[..n]);
      if u.Some? && steps[n].thread in u.value.threads then Advance(u.value, steps[n].thread, steps[n].action) else None
  }

  lemma {:induction false} InvKept(s: State, steps: seq<Step>)
    requires Inv(s) && Run(s, steps).Some?
    ensures Inv(Run(s, steps).value)
  {
    hide Inv, Advance;
    if steps != [] {
      var n := |steps| - 1;
      InvKept(s, steps[..n]);
      StepKeepsInv(Run(s, steps[..n]).value, steps[n].thread, steps[n].action);
    }
  }

  /** Conservation over every interleaving of any number of threads, RIBs and operations. */
  lemma {:induction false} RunKeepsInv(s: State, steps: seq<Step>)
    requires Init(s) && Run(s, steps).Some?
    ensures Inv(Run(s, steps).value)
  {
    InitInv(s);
    hide Inv, Init, Run;
    InvKept(s, steps);
  }

  /** In every reachable state: whatever a RIB stores is in the table with its content, its count is
      at least the number of paths using it, and no release ever hit a dead entry, an underflow or
      the clamp. */
  lemma StoredIsLive(s: State, steps: seq<Step>, r: RibId)
    requires Init(s) && Run(s, steps).Some? && r in Run(s, steps).value.ribs
    ensures var u := Run(s, steps).value;
      u.sound && forall p :: p in Occurrences(u.ribs[r]) ==>
        p in u.table.val && p in u.table.refs && u.table.refs[p] >= Occurrences(u.ribs[r])[p]
  {
    RunKeepsInv(s, steps);
    hide Run, Consistent, Counts, Occurrences;
    var u := Run(s, steps).value;
    SaneParts(u);
    TrieInHeld(u, r);
    HeldIsLive(u, Occurrences(u.ribs[r]));
  }

  /** Leak freedom: once every RIB is empty and no thread holds or owes a reference, the table is
      empty, with both statistics at zero. */
  lemma NothingLeaks(s: State, steps: seq<Step>)
    requires Init(s) && Run(s, steps).Some?
    requires var u := Run(s, steps).value;
      && (forall r :: r in u.ribs ==> u.ribs[r] == map[])
      && (forall t :: t in u.threads ==> u.threads[t].Refs() == multiset{})
    ensures var u := Run(s, steps).value; u.table == EmptyTable(u.table.hash)
  {
    RunKeepsInv(s, steps);
    hide Run;
    var u := Run(s, steps).value;
    NothingAnywhere(u);
    SaneParts(u);
    NoLeak(u.table);
  }
}
