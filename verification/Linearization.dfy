/** Transparency of sharing: however threads interleave, each RIB evolves and answers as if its
    operations ran one at a time on a plain map of its own, holding attribute content instead of shared
    pointers. */
module Linearization {
  import opened Addressing
  import opened Attributes
  import opened AttrModel
  import opened Interleaving
  import opened PathSeq
  import opened Protocol
  import opened Reference
  import opened RibModel
  import opened Sweeps
  import Sums

  /** One operation as it takes effect on one RIB. */
  datatype Op =
    | Store(key: Key, id: uint32, content: AttrContent)
    | Remove(key: Key, id: uint32)
    | Mark
    | Flush
    | Clear
    | Read(family: Family, question: Question)

  /** What it returns to its caller. */
  datatype Answer =
    | Done
    | Changed(yes: bool)             // a prefix got its first path, or lost its last one
    | Emptied(keys: set<Key>)        // the prefixes a flush removed
    | One(route: Option<Announcement>)
    | Many(routes: seq<Announcement>)
    | Prefixes(prefixes: seq<Prefix>)
    | Panic

  datatype Event = Event(op: Op, answer: Answer)

  // ---- The reference ------------------------------------------------------------------------------------

  function Perform(m: Reference.Store, op: Op): Reference.Store
  {
    match op
    case Store(k, id, c) => Insert(m, k, id, c)
    case Remove(k, id) => RibModel.Delete(m, k, id)
    case Mark => MarkAllStale(m)
    case Flush => DropStale(m)
    case Clear => map[]
    case Read(_, _) => m
  }

  ghost function Asked(m: Reference.Store, f: Family, q: Question): Answer
  {
    match q
    case LongestMatch(ip) => One(Search(f, m, ip))
    case AllOfLongest(ip) =>
      if ip.family == f && !f.Indexable(ip.bytes[0]) then Panic else Many(AllPathsSearch(f, m, ip))
    case Exact(p) => One(Lookup(f, m, p))
    case AllOf(p) => Many(AllPaths(f, m, p))
    case Listing => Prefixes(AllPrefixes(f, m))
    case Filter(query) => Many(MatchingAll(f, m, query))
  }

  ghost function Reply(m: Reference.Store, op: Op): Answer
  {
    match op
    case Store(k, _, _) => Changed(k !in m)
    case Remove(k, id) => Changed(k in m && k !in RibModel.Delete(m, k, id))
    case Flush => Emptied(AllStale(m))
    case Read(f, q) => Asked(m, f, q)
    case _ => Done
  }

  // ---- What happens in the shared system ----------------------------------------------------------------

  function Reading(table: Table<Ptr>): Ptr -> AttrContent
  {
    p => if p in table.val then table.val[p] else EMPTY
  }

  predicate BeingSwept(s: State, r: RibId)
  {
    r in s.owner && s.owner[r] in s.threads && s.threads[s.owner[r]].Sweeping?
  }

  /** What a RIB amounts to: a flush under way has not happened yet. Nobody can look before it ends,
      because its RIB stays locked. */
  function Settled(s: State, r: RibId): Trie
    requires r in s.ribs
  {
    if BeingSwept(s, r) then s.threads[s.owner[r]].was else s.ribs[r]
  }

  /** The same with attributes read through the table as it is now. */
  function Seen(s: State, r: RibId): Reference.Store
    requires r in s.ribs
  {
    View(Reading(s.table), Settled(s, r))
  }

  /** Where each operation takes effect, on which RIB, and what it answers there. The answers come from
      the shared state: the trie of pointers and, for reads, the table. */
  ghost function Effect(s: State, t: ThreadId, a: Action): Option<(RibId, Event)>
    requires t in s.threads
  {
    match s.threads[t]
    case Idle =>
      if a.Peek? && a.rib in s.ribs then
        var found := Asked(View(Reading(s.table), s.ribs[a.rib]), a.family, a.question);
        Some((a.rib, Event(Read(a.family, a.question), found)))
      else None
    case Inserting(r, k, id, _, c) =>
      if a.StorePath? && r in s.ribs then Some((r, Event(Store(k, id, c), Changed(k !in s.ribs[r])))) else None
    case Locked(r) =>
      if r in s.ribs then EffectLocked(s.ribs[r], r, a) else None
    case Sweeping(r, _, emptied, _) =>
      if a.EndSweep? then Some((r, Event(Flush, Emptied(emptied)))) else None
    case _ => None
  }

  ghost function EffectLocked(m: Trie, r: RibId, a: Action): Option<(RibId, Event)>
  {
    match a
    case RemovePath(k, id) =>
      Some((r, Event(Remove(k, id), Changed(k in m && k !in RibModel.Delete(m, k, id)))))
    case MarkStale => Some((r, Event(Mark, Done)))
    case Detach => Some((r, Event(Clear, Done)))
    case _ => None
  }

  /** The event is what the reference does, and answers, from this state of the RIB. */
  ghost predicate Matches(before: Reference.Store, after: Reference.Store, e: Event)
  {
    after == Perform(before, e.op) && e.answer == Reply(before, e.op)
  }

  // ---- Steps that only touch the table ------------------------------------------------------------------

  /** A map reads the same through two representations that agree on the attributes stored in it. */
  lemma ViewSame<A, B>(f: A -> B, g: A -> B, m: PathMap<A>)
    requires forall p :: p in Occurrences(m) ==> f(p) == g(p)
    ensures View(f, m) == View(g, m)
  {
    hide Occurrences;
    forall k | k in m ensures MapAttrs(f, m[k]) == MapAttrs(g, m[k]) {
      forall i | 0 <= i < |m[k]| ensures f(m[k][i].attrs) == g(m[k][i].attrs) {
        StoredAttr(m, k, i);
      }
    }
  }

  /** Stored pointers keep their meaning across any step, whatever happened to the table. */
  lemma SameReading(s: State, u: State, r: RibId, m: Trie)
    requires Conserved(s) && Conserved(u) && SameContent(s.table, u.table)
    requires Occurrences(m) <= Held(s) && Occurrences(m) <= Held(u)
    ensures View(Reading(u.table), m) == View(Reading(s.table), m)
  {
    HeldIsLive(s, Occurrences(m));
    HeldIsLive(u, Occurrences(m));
    hide Conserved, Held, Occurrences;
    ViewSame(Reading(u.table), Reading(s.table), m);
  }

  /** Everything a RIB amounts to is held: what a flush has taken out already is in its tally. */
  lemma SettledIsHeld(s: State, r: RibId)
    requires Sane(s) && r in s.ribs
    ensures Occurrences(Settled(s, r)) <= Held(s)
  {
    hide Conserved, Held, Occurrences, WellFormed;
    if BeingSwept(s, r) {
      var t := s.owner[r];
      assert s.threads[t].Holds() == Some(r);
      SweepTracked(s, t);
      TrieInTries(s, r);
      HandInHands(s, t);
      HeldParts(s);
      BothWithin(Occurrences(s.ribs[r]), InTries(s.ribs), s.threads[t].tally, InHands(s.threads));
    } else {
      TrieInHeld(s, r);
    }
  }

  lemma TrieInTries(s: State, r: RibId)
    requires r in s.ribs
    ensures Occurrences(s.ribs[r]) <= InTries(s.ribs)
  {
    Sums.TermBelowSum(s.ribs.Keys, RibRefs(s.ribs), r);
  }

  lemma HandInHands(s: State, t: ThreadId)
    requires t in s.threads
    ensures s.threads[t].Refs() <= InHands(s.threads)
  {
    Sums.TermBelowSum(s.threads.Keys, ThreadRefs(s.threads), t);
  }

  lemma BothWithin<P>(a: multiset<P>, x: multiset<P>, b: multiset<P>, y: multiset<P>)
    requires a <= x && b <= y
    ensures a + b <= x + y
  {
  }

  /** A RIB that a step does not edit looks the same after it, whatever happened to the table. */
  lemma Untouched(s: State, u: State, r: RibId)
    requires Sane(s) && Sane(u) && SameContent(s.table, u.table) && r in s.ribs && r in u.ribs
    requires Settled(u, r) == Settled(s, r)
    ensures Seen(u, r) == Seen(s, r)
  {
    hide Held, SameContent, Reading, View, Settled, Occurrences;
    SettledIsHeld(s, r);
    SettledIsHeld(u, r);
    SaneParts(s);
    SaneParts(u);
    SameReading(s, u, r, Settled(s, r));
  }

  // ---- Steps with an effect -----------------------------------------------------------------------------

  /** The thread that holds a RIB and is not flushing it sees it as it is. */
  lemma HeldIsSettled(s: State, t: ThreadId, r: RibId)
    requires LocksAgree(s) && t in s.threads && s.threads[t].Holds() == Some(r)
    ensures r in s.ribs && r in s.owner && s.owner[r] == t && (BeingSwept(s, r) <==> s.threads[t].Sweeping?)
  {
  }

  lemma StoreMatches(s: State, t: ThreadId)
    requires Sane(s) && t in s.threads && s.threads[t].Inserting? && Move(s, t, StorePath).Some?
    ensures var u, e := Move(s, t, StorePath).value, Effect(s, t, StorePath);
      && e.Some? && e.value.0 == s.threads[t].rib && e.value.0 in s.ribs && e.value.0 in u.ribs
      && Matches(Seen(s, e.value.0), Seen(u, e.value.0), e.value.1)
  {
    hide Conserved, Held, Occurrences, Insert, Displaced, View, WellFormed, Tracked;
    var ph := s.threads[t];
    HeldIsSettled(s, t, ph.rib);
    ViewEdits(Reading(s.table), s.ribs[ph.rib], ph.key, ph.id, ph.ptr);
    assert Reading(s.table)(ph.ptr) == ph.content;
  }

  lemma LockedMatches(s: State, t: ThreadId, a: Action)
    requires LocksAgree(s) && t in s.threads && s.threads[t].Locked? && Move(s, t, a).Some? && Effect(s, t, a).Some?
    ensures var u, e := Move(s, t, a).value, Effect(s, t, a).value;
      && e.0 == s.threads[t].rib && e.0 in s.ribs && e.0 in u.ribs && Matches(Seen(s, e.0), Seen(u, e.0), e.1)
  {
    hide Occurrences, RibModel.Delete, Deleted, View, MarkAllStale, Reading, LocksAgree, BeingSwept;
    var r, f, u := s.threads[t].rib, Reading(s.table), Move(s, t, a).value;
    HeldIsSettled(s, t, r);
    NotSwept(u, t, r);
    match a
    case RemovePath(k, id) => ViewEdits(f, s.ribs[r], k, id, 0);
    case MarkStale => ViewMark(f, s.ribs[r]);
    case Detach => EmptyView(f);
  }

  lemma NotSwept(s: State, t: ThreadId, r: RibId)
    ensures (r in s.owner ==> s.owner[r] == t && (t in s.threads ==> !s.threads[t].Sweeping?)) ==> !BeingSwept(s, r)
  {
  }

  lemma EmptyView(f: Ptr -> AttrContent)
    ensures View(f, map[]) == map[]
  {
  }

  /** The end of a flush: what is left is what was fresh at its beginning, and the positions it reports
      are those that had only stale paths. */
  lemma EndSweepMatches(s: State, t: ThreadId)
    requires Sane(s) && t in s.threads && s.threads[t].Sweeping? && Move(s, t, EndSweep).Some?
    ensures var u, e := Move(s, t, EndSweep).value, Effect(s, t, EndSweep);
      && e.Some? && e.value.0 == s.threads[t].rib && e.value.0 in s.ribs && e.value.0 in u.ribs
      && Matches(Seen(s, e.value.0), Seen(u, e.value.0), e.value.1)
  {
    hide Conserved, Held, Occurrences, DropStale, View, Reading, WellFormed, AllStale;
    var ph := s.threads[t];
    HeldIsSettled(s, t, ph.rib);
    SweepTracked(s, t);
    ViewDrop(Reading(s.table), ph.was);
    ViewAllStale(Reading(s.table), ph.was);
    NothingAllStale(s.ribs[ph.rib]);
    assert ph.emptied + {} == ph.emptied;
  }

  lemma ViewAllStale<A, B>(f: A -> B, m: PathMap<A>)
    ensures AllStale(View(f, m)) == AllStale(m)
  {
    forall k | k in m ensures Fresh(MapAttrs(f, m[k])) == [] <==> Fresh(m[k]) == [] {
      MapFresh(f, m[k]);
    }
    hide Fresh, MapAttrs;
  }

  lemma NothingAllStale(m: Trie)
    requires DropStale(m) == m
    ensures AllStale(m) == {}
  {
    hide Fresh;
    forall k | k in m ensures Fresh(m[k]) != [] {
      assert k in DropStale(m);
    }
  }

  // ---- Every step ---------------------------------------------------------------------------------------

  lemma OthersUntouched(s: State, t: ThreadId, a: Action, r: RibId)
    requires Sane(s) && t in s.threads && Move(s, t, a).Some? && r in s.ribs && s.threads[t].Holds() != Some(r)
    ensures var u := Move(s, t, a).value; r in u.ribs && Settled(u, r) == Settled(s, r)
  {
    hide Move, Conserved, HandsHonest, RibsWellFormed, SweepsTracked;
    MoveIsLocal(s, t, a);
  }

  /** A flush under way remembers what it started from; its single removals count only together. */
  lemma SweepUntouched(s: State, t: ThreadId, k: Key)
    requires LocksAgree(s) && t in s.threads && s.threads[t].Sweeping? && Move(s, t, SweepOne(k)).Some?
    ensures var u, r := Move(s, t, SweepOne(k)).value, s.threads[t].rib;
      r in s.ribs && r in u.ribs && Settled(u, r) == Settled(s, r)
  {
    hide Occurrences, RibModel.Delete, Deleted, FirstStale, At, Ref;
    HeldIsSettled(s, t, s.threads[t].rib);
  }

  lemma StaysSettled(s: State, u: State, t: ThreadId, r: RibId)
    requires LocksAgree(s) && t in s.threads && s.threads[t].Holds() == Some(r) && !s.threads[t].Sweeping?
    requires r in s.ribs && r in u.ribs && u.ribs[r] == s.ribs[r] && t in u.threads
    requires r in u.owner ==> u.owner[r] == t && (u.threads[t].Sweeping? ==> u.threads[t].was == s.ribs[r])
    ensures Settled(u, r) == Settled(s, r)
  {
    HeldIsSettled(s, t, r);
    hide LocksAgree;
  }

  /** Other steps of the thread that holds a RIB: they concern the lock or the table. */
  lemma OwnUntouched(s: State, t: ThreadId, a: Action, r: RibId)
    requires LocksAgree(s) && t in s.threads && Move(s, t, a).Some? && s.threads[t].Holds() == Some(r)
    requires Effect(s, t, a).None?
    ensures var u := Move(s, t, a).value; r in s.ribs && r in u.ribs && Settled(u, r) == Settled(s, r)
  {
    hide Held, GetOrInsert, Drop, Release, RibModel.Delete, Deleted, FromSweeping, LocksAgree, Reading, View, Asked;
    hide Settled, BeingSwept;
    HeldIsSettled(s, t, r);
    if s.threads[t].Sweeping? {
      SweepIsOne(s, t, a);
      SweepUntouched(s, t, a.key);
    } else {
      StaysSettled(s, Move(s, t, a).value, t, r);
    }
  }

  lemma SweepIsOne(s: State, t: ThreadId, a: Action)
    requires t in s.threads && s.threads[t].Sweeping? && Move(s, t, a).Some? && !a.EndSweep?
    ensures a.SweepOne?
  {
    hide RibModel.Delete, DropStale, Swept;
  }

  lemma OwnMatches(s: State, t: ThreadId, a: Action, r: RibId)
    requires Sane(s) && t in s.threads && Move(s, t, a).Some? && s.threads[t].Holds() == Some(r)
    requires Effect(s, t, a).Some?
    ensures var u, e := Move(s, t, a).value, Effect(s, t, a).value;
      e.0 == r && r in s.ribs && r in u.ribs && Matches(Seen(s, r), Seen(u, r), e.1)
  {
    SaneParts(s);
    hide Sane, LocksAgree, Seen, Held, Occurrences, RibModel.Delete, Insert, MarkAllStale, DropStale, Matches;
    match s.threads[t]
    case Inserting(_, _, _, _, _) => StoreMatches(s, t);
    case Sweeping(_, _, _, _) => EndSweepMatches(s, t);
    case Locked(_) => LockedMatches(s, t, a);
    case _ =>
  }

  /** A read answers from the RIB as it stands: nobody owns it, so no flush is under way. */
  lemma PeekMatches(s: State, t: ThreadId, a: Action)
    requires Sane(s) && t in s.threads && s.threads[t].Idle? && a.Peek? && Move(s, t, a).Some?
    ensures var e := Effect(s, t, a);
      && Move(s, t, a).value == s && e.Some? && e.value.0 == a.rib && a.rib in s.ribs
      && Matches(Seen(s, a.rib), Seen(s, a.rib), e.value.1)
  {
    hide Conserved, Held, View, Reading, Asked;
  }

  /** Which RIB an effect concerns. */
  lemma EffectOn(s: State, t: ThreadId, a: Action)
    requires t in s.threads && Effect(s, t, a).Some?
    ensures !InSection(a) && !a.AcquireTable? && !a.ReleaseTable?
    ensures (s.threads[t].Idle? && a.Peek?) || s.threads[t].Holds() == Some(Effect(s, t, a).value.0)
  {
    hide Asked;
  }

  /** One move: the RIB it has an effect on changes and answers as the reference does, every other RIB
      is left alone. */
  lemma MoveRefines(s: State, t: ThreadId, a: Action, r: RibId)
    requires Sane(s) && t in s.threads && Move(s, t, a).Some? && r in s.ribs
    ensures var u, e := Move(s, t, a).value, Effect(s, t, a);
      && r in u.ribs
      && if e.Some? && e.value.0 == r then Matches(Seen(s, r), Seen(u, r), e.value.1) else Seen(u, r) == Seen(s, r)
  {
    hide *;
    MoveKeepsSane(s, t, a);
    if Effect(s, t, a).Some? { EffectOn(s, t, a); }
    if s.threads[t].Idle? && a.Peek? {
      PeekMatches(s, t, a);
    } else if s.threads[t].Holds() != Some(r) {
      OthersUntouched(s, t, a, r);
      Untouched(s, Move(s, t, a).value, r);
    } else if Effect(s, t, a).Some? {
      OwnMatches(s, t, a, r);
    } else {
      SaneParts(s);
      OwnUntouched(s, t, a, r);
      Untouched(s, Move(s, t, a).value, r);
    }
  }

  lemma SeenIgnoresLock(s: State, l: TableLock, r: RibId)
    requires r in s.ribs
    ensures Seen(s.(lock := l), r) == Seen(s, r)
  {
  }

  /** One step: the RIB it has an effect on changes and answers as the reference does, every other RIB
      is left alone. In particular a reset or a flush of one RIB changes nothing another RIB can see. */
  lemma StepRefines(s: State, t: ThreadId, a: Action, r: RibId)
    requires Inv(s) && t in s.threads && Advance(s, t, a).Some? && r in s.ribs
    ensures var u, e := Advance(s, t, a).value, Effect(s, t, a);
      && r in u.ribs
      && if e.Some? && e.value.0 == r then Matches(Seen(s, r), Seen(u, r), e.value.1) else Seen(u, r) == Seen(s, r)
  {
    AdvanceParts(s, t, a);
    hide Advance, Move, Sane, TableAgrees, Seen, Effect, Matches;
    if Effect(s, t, a).Some? { EffectOn(s, t, a); }
    if a.AcquireTable? || a.ReleaseTable? {
      SeenIgnoresLock(s, Advance(s, t, a).value.lock, r);
    } else {
      MoveRefines(s, t, a, r);
      SeenIgnoresLock(Move(s, t, a).value, Advance(s, t, a).value.lock, r);
    }
  }

  // ---- Runs ---------------------------------------------------------------------------------------------

  /** What happened on one RIB in a run, in the order in which it took effect, with the answers given. */
  ghost function History(s: State, steps: seq<Step>, r: RibId): seq<Event>
  {
    if steps == [] then []
    else
      var n := |steps| - 1;
      var u := Run(s, steps[..n]);
      if u.None? || steps[n].thread !in u.value.threads then []
      else
        var e := Effect(u.value, steps[n].thread, steps[n].action);
        History(s, steps[..n], r) + (if e.Some? && e.value.0 == r then [e.value.1] else [])
  }

  function PerformAll(m: Reference.Store, es: seq<Event>): Reference.Store
  {
    if es == [] then m else Perform(PerformAll(m, es[..|es| - 1]), es[|es| - 1].op)
  }

  /** A sequential run: each answer is the reference's after everything before it. */
  ghost predicate Sequential(m: Reference.Store, es: seq<Event>)
  {
    forall i :: 0 <= i < |es| ==> es[i].answer == Reply(PerformAll(m, es[..i]), es[i].op)
  }

  lemma PerformLast(m: Reference.Store, es: seq<Event>, e: Event)
    ensures PerformAll(m, es + [e]) == Perform(PerformAll(m, es), e.op)
  {
    hide Perform;
    assert (es + [e])[..|es|] == es;
  }

  lemma OneMore(m: Reference.Store, es: seq<Event>, e: Event)
    requires Sequential(m, es) && e.answer == Reply(PerformAll(m, es), e.op)
    ensures Sequential(m, es + [e])
  {
    hide Reply, Perform;
    var all := es + [e];
    assert all[..|es|] == es;
    forall i | 0 <= i < |all| ensures all[i].answer == Reply(PerformAll(m, all[..i]), all[i].op) {
      assert i <= |es| && all[..i] == es[..i];
      if i == |es| { assert es[..i] == es; }
    }
  }

  lemma LastStep(s: State, steps: seq<Step>, r: RibId)
    requires steps != [] && Run(s, steps).Some?
    ensures var n := |steps| - 1; var u := Run(s, steps[..n]);
      && u.Some? && steps[n].thread in u.value.threads
      && Run(s, steps) == Advance(u.value, steps[n].thread, steps[n].action)
      && var e := Effect(u.value, steps[n].thread, steps[n].action);
         History(s, steps, r) == History(s, steps[..n], r) + if e.Some? && e.value.0 == r then [e.value.1] else []
  {
    hide Advance, Effect;
  }

  lemma InitSeen(s: State, r: RibId)
    requires Init(s) && r in s.ribs
    ensures Seen(s, r) == map[]
  {
    EmptyView(Reading(s.table));
  }

  /** Every interleaving of every thread's operations on every RIB leaves each RIB as a sequential run of
      the operations on that RIB leaves a private map. */
  lemma {:induction false} RunRefines(s: State, steps: seq<Step>, r: RibId)
    requires Init(s) && Run(s, steps).Some? && r in s.ribs
    ensures var u := Run(s, steps).value; r in u.ribs && Seen(u, r) == PerformAll(map[], History(s, steps, r))
  {
    if steps == [] {
      InitSeen(s, r);
    } else {
      var n := |steps| - 1;
      LastStep(s, steps, r);
      RunRefines(s, steps[..n], r);
      RunKeepsInv(s, steps[..n]);
      hide Inv, Init, Advance, Seen, Perform, Effect, Run, History, PerformAll, Reply;
      var u, h := Run(s, steps[..n]).value, History(s, steps[..n], r);
      StepRefines(u, steps[n].thread, steps[n].action, r);
      var e := Effect(u, steps[n].thread, steps[n].action);
      if e.Some? && e.value.0 == r {
        PerformLast(map[], h, e.value.1);
      } else {
        assert h + [] == h;
      }
    }
  }

  /** And every answer given on the way, to updates and to reads, is the answer of that sequential run. */
  lemma {:induction false} RunAnswers(s: State, steps: seq<Step>, r: RibId)
    requires Init(s) && Run(s, steps).Some? && r in s.ribs
    ensures Sequential(map[], History(s, steps, r))
  {
    if steps != [] {
      var n := |steps| - 1;
      LastStep(s, steps, r);
      RunAnswers(s, steps[..n], r);
      RunRefines(s, steps[..n], r);
      RunKeepsInv(s, steps[..n]);
      hide Inv, Init, Advance, Seen, Perform, Effect, Run, History, PerformAll, Sequential, Reply;
      var u, h := Run(s, steps[..n]).value, History(s, steps[..n], r);
      StepRefines(u, steps[n].thread, steps[n].action, r);
      var e := Effect(u, steps[n].thread, steps[n].action);
      if e.Some? && e.value.0 == r {
        OneMore(map[], h, e.value.1);
      } else {
        assert h + [] == h;
      }
    }
  }
}
