/** Any number of RIBs and threads sharing one attribute table.

    A thread takes and drops each lock in a step of its own. What it does under a lock is cut into the
    smallest edits that matter to others; steps of different threads interleave arbitrarily. A batched
    release takes any number of entries per table section, in any order, so every map order and every
    chunk boundary of the source is included. */
module Protocol {
  import opened Addressing
  import opened Attributes
  import opened AttrModel
  import opened PathSeq
  import opened RibModel
  import opened Sums
  import opened Sweeps

  type Ptr = nat       // identity of an allocated attribute entry
  type RibId = nat
  type ThreadId = nat
  type Trie = PathMap<Ptr>

  /** What a thread is in the middle of. */
  datatype Phase =
    | Idle
    | Waiting(rib: RibId)                                       // blocked on the RIB lock
    | Locked(rib: RibId)                                        // RIB lock held, between two items of work
    | Fetching(rib: RibId, key: Key, id: uint32, content: AttrContent)             // about to take a reference
    | Inserting(rib: RibId, key: Key, id: uint32, ptr: Ptr, content: AttrContent)  // reference taken
    | Displacing(rib: RibId, ptr: Ptr)                          // a path was pushed out, reference in hand
    | Sweeping(rib: RibId, tally: multiset<Ptr>, emptied: set<Key>, was: Trie)     // stale flush in progress
    | Detached(trie: Trie)                                      // reset done, RIB lock dropped, trie not yet walked
    | Flushing(tally: multiset<Ptr>)                            // releasing a tally, RIB lock dropped
  {
    /** The RIB lock held. */
    function Holds(): Option<RibId>
    {
      match this
      case Idle | Waiting(_) | Detached(_) | Flushing(_) => None
      case _ => Some(rib)
    }

    /** References this thread is responsible for. */
    ghost function Refs(): multiset<Ptr>
    {
      match this
      case Inserting(_, _, _, p, _) => multiset{p}
      case Displacing(_, p) => multiset{p}
      case Sweeping(_, tally, _, _) => tally
      case Detached(trie) => Occurrences(trie)
      case Flushing(tally) => tally
      case _ => multiset{}
    }

    /** Work that needs the table lock comes next. */
    predicate Wants()
    {
      Fetching? || Displacing? || (Flushing? && tally != multiset{})
    }
  }

  /** The table lock; `used` says whether its holder has done any work under it. */
  datatype TableLock = Free | Taken(holder: ThreadId, used: bool)

  /** `owner` says which thread holds each RIB lock; `sound` turns false on releasing a dead entry,
      an underflow or a clamp. */
  datatype State = State(
    table: Table<Ptr>,
    lock: TableLock,
    ribs: map<RibId, Trie>,
    threads: map<ThreadId, Phase>,
    owner: map<RibId, ThreadId>,
    sound: bool
  )

  /** What a reader may ask of a RIB of family `f`. */
  datatype Question =
    | LongestMatch(ip: Addr)
    | AllOfLongest(ip: Addr)
    | Exact(prefix: Prefix)
    | AllOf(prefix: Prefix)
    | Listing
    | Filter(query: Query)

  datatype Action =
    | Begin(rib: RibId)
    | Lock
    | Unlock
    | Peek(rib: RibId, family: Family, question: Question)
    | BeginInsert(key: Key, id: uint32, content: AttrContent)
    | AcquireTable
    | TakeRef(spare: Ptr)
    | ReleaseTable
    | StorePath
    | RemovePath(key: Key, id: uint32)
    | DropRef
    | MarkStale
    | BeginSweep
    | SweepOne(key: Key)
    | EndSweep
    | Detach
    | WalkDetached
    | FlushOne(ptr: Ptr)
    | FinishFlush

  ghost function RibRefs(ribs: map<RibId, Trie>): RibId -> multiset<Ptr>
  {
    r => if r in ribs then Occurrences(ribs[r]) else multiset{}
  }

  ghost function ThreadRefs(threads: map<ThreadId, Phase>): ThreadId -> multiset<Ptr>
  {
    t => if t in threads then threads[t].Refs() else multiset{}
  }

  ghost function InTries(ribs: map<RibId, Trie>): multiset<Ptr>
  {
    SumOver(ribs.Keys, RibRefs(ribs))
  }

  ghost function InHands(threads: map<ThreadId, Phase>): multiset<Ptr>
  {
    SumOver(threads.Keys, ThreadRefs(threads))
  }

  /** Every reference anyone holds: all live tries, all references in hand, all detached tries and
      pending tallies. */
  ghost function Held(s: State): multiset<Ptr>
  {
    InTries(s.ribs) + InHands(s.threads)
  }

  // ---- Steps ------------------------------------------------------------------------------------------

  ghost function To(s: State, t: ThreadId, ph: Phase): State
  {
    s.(threads := s.threads[t := ph])
  }

  ghost function Edit(s: State, t: ThreadId, ph: Phase, r: RibId, m: Trie): State
  {
    s.(threads := s.threads[t := ph], ribs := s.ribs[r := m])
  }

  /** What follows a trie edit: a path pushed out or deleted leaves its reference in hand. */
  function Onward(r: RibId, d: Option<Ptr>): Phase
  {
    if d.Some? then Displacing(r, d.value) else Locked(r)
  }

  /** A table section that gives back one reference. Total, as in the source; the flag records
      whether the entry was live with a positive count. */
  ghost function Give(s: State, p: Ptr): State
  {
    if p in s.table.refs && p in s.table.val && s.table.refs[p] > 0
    then s.(table := Release(s.table, p))
    else s.(sound := false)
  }

  /** A table section that gives back `n` references, clamped to the count. The flag records
      whether the clamp took effect. */
  ghost function GiveMany(s: State, p: Ptr, n: nat): State
  {
    if p in s.table.refs
    then s.(table := Drop(s.table, Copies(p, Clamp(n, s.table.refs[p]))), sound := s.sound && n <= s.table.refs[p])
    else s.(sound := false)
  }

  /** Actions that are carried out under the table lock. */
  predicate InSection(a: Action)
  {
    a.TakeRef? || a.DropRef? || a.FlushOne?
  }

  predicate HasTable(s: State, t: ThreadId)
  {
    s.lock.Taken? && s.lock.holder == t
  }

  /** The step of thread `t`, or None where it is not possible. A section does some work before it
      drops the table lock, and nothing else happens in between. */
  ghost function Advance(s: State, t: ThreadId, a: Action): Option<State>
    requires t in s.threads
  {
    if a.AcquireTable? then
      if s.lock.Free? && s.threads[t].Wants() then Some(s.(lock := Taken(t, false))) else None
    else if a.ReleaseTable? then
      if s.lock == Taken(t, true) then Some(s.(lock := Free)) else None
    else if HasTable(s, t) != InSection(a) then None
    else
      var u := Move(s, t, a);
      if u.Some? && InSection(a) then Some(u.value.(lock := Taken(t, true))) else u
  }

  /** What a step does apart from the table lock. The 32-bit bound on references is an assumption about
      the environment, stated where a reference is taken. */
  ghost function Move(s: State, t: ThreadId, a: Action): Option<State>
    requires t in s.threads
  {
    match s.threads[t]
    case Idle =>
      if a.Begin? && a.rib in s.ribs then Some(To(s, t, Waiting(a.rib)))
      else if a.Peek? && a.rib in s.ribs && a.rib !in s.owner then Some(s) else None
    case Waiting(r) =>
      if a.Lock? && r in s.ribs && r !in s.owner then Some(To(s, t, Locked(r)).(owner := s.owner[r := t])) else None
    case Locked(r) =>
      if r in s.ribs then FromLocked(s, t, r, a) else None
    case Fetching(r, k, id, c) =>
      if !a.TakeRef? || a.spare in s.table.val || |Held(s)| + 1 >= TWO_32 then None
      else
        var (u, p) := GetOrInsert(s.table, c, a.spare);
        Some(To(s, t, Inserting(r, k, id, p, c)).(table := u))
    case Inserting(r, k, id, p, _) =>
      if a.StorePath? && r in s.ribs
      then Some(Edit(s, t, Onward(r, Displaced(At(s.ribs[r], k), id)), r, Insert(s.ribs[r], k, id, p))) else None
    case Displacing(r, p) =>
      if a.DropRef? then Some(Give(To(s, t, Locked(r)), p)) else None
    case Sweeping(r, _, _, _) =>
      if r in s.ribs then FromSweeping(s, t, r, a) else None
    case Detached(trie) =>
      if a.WalkDetached? then Some(To(s, t, Flushing(Occurrences(trie)))) else None
    case Flushing(tally) =>
      if a.FlushOne? && a.ptr in tally
      then Some(GiveMany(To(s, t, Flushing(tally[a.ptr := 0])), a.ptr, tally[a.ptr]))
      else if a.FinishFlush? && tally == multiset{} then Some(To(s, t, Idle)) else None
  }

  ghost function FromLocked(s: State, t: ThreadId, r: RibId, a: Action): Option<State>
    requires t in s.threads && r in s.ribs
  {
    match a
    case Unlock => Some(To(s, t, Idle).(owner := s.owner - {r}))
    case BeginInsert(k, id, c) => Some(To(s, t, Fetching(r, k, id, c)))
    case RemovePath(k, id) =>
      Some(Edit(s, t, Onward(r, Deleted(At(s.ribs[r], k), id)), r, Delete(s.ribs[r], k, id)))
    case MarkStale => Some(Edit(s, t, Locked(r), r, MarkAllStale(s.ribs[r])))
    case BeginSweep => Some(To(s, t, Sweeping(r, multiset{}, {}, s.ribs[r])))
    case Detach => Some(Edit(s, t, Detached(s.ribs[r]), r, map[]).(owner := s.owner - {r}))
    case _ => None
  }

  /** The flush after one more stale path, that of `id` at `k`, has gone. */
  ghost function Swept(ph: Phase, m: Trie, k: Key, id: uint32): Phase
    requires ph.Sweeping?
  {
    ph.(tally := ph.tally + Ref(Deleted(At(m, k), id)),
        emptied := ph.emptied + if k in Delete(m, k, id) then {} else {k})
  }

  /** The flush removes stale paths one at a time, at any position, and may stop looking only when
      there are none left. */
  ghost function FromSweeping(s: State, t: ThreadId, r: RibId, a: Action): Option<State>
    requires t in s.threads && r in s.ribs && s.threads[t].Sweeping?
  {
    match a
    case SweepOne(k) =>
      var paths := At(s.ribs[r], k);
      var i := FirstStale(paths);
      if i == |paths| then None
      else
        var id := paths[i].pathID;
        Some(Edit(s, t, Swept(s.threads[t], s.ribs[r], k, id), r, Delete(s.ribs[r], k, id)))
    case EndSweep =>
      if DropStale(s.ribs[r]) == s.ribs[r]
      then Some(To(s, t, Flushing(s.threads[t].tally)).(owner := s.owner - {r})) else None
    case _ => None
  }

  // ---- The invariant --------------------------------------------------------------------------------

  ghost predicate LocksAgree(s: State)
  {
    && (forall t :: t in s.threads && s.threads[t].Holds().Some? ==>
          var r := s.threads[t].Holds().value; r in s.ribs && r in s.owner && s.owner[r] == t)
    && (forall r :: r in s.owner ==> s.owner[r] in s.threads && s.threads[s.owner[r]].Holds() == Some(r))
    && (forall t :: t in s.threads && s.threads[t].Waiting? ==> s.threads[t].rib in s.ribs)
  }

  /** The holder of the table lock has its work still to do, or has done some. In neither case is it
      waiting for a RIB: the locks are only ever taken in the order RIB, then table. */
  ghost predicate TableAgrees(s: State)
  {
    s.lock.Taken? ==>
      && s.lock.holder in s.threads
      && var ph := s.threads[s.lock.holder];
         if s.lock.used then ph.Inserting? || ph.Locked? || ph.Flushing? else ph.Wants()
  }

  /** A flush under way: what it started from is what is left plus what is in its tally, and the
      positions it has emptied are those that had only stale paths and are gone. */
  ghost predicate Tracked(ph: Phase, m: Trie)
    requires ph.Sweeping?
  {
    && DropStale(ph.was) == DropStale(m)
    && Occurrences(ph.was) == Occurrences(m) + ph.tally
    && AllStale(ph.was) == ph.emptied + AllStale(m)
  }

  ghost predicate SweepsTracked(s: State)
  {
    forall t :: t in s.threads && s.threads[t].Sweeping? ==>
      s.threads[t].rib in s.ribs && Tracked(s.threads[t], s.ribs[s.threads[t].rib])
  }

  ghost predicate RibsWellFormed(s: State)
  {
    forall r :: r in s.ribs ==> WellFormed(s.ribs[r])
  }

  /** Reference conservation: the counts in the table are exactly the references held. */
  ghost predicate Conserved(s: State)
  {
    Consistent(s.table) && Counts(s.table, Held(s)) && s.sound
  }

  /** A reference taken for an insert still names the content it was taken for. */
  ghost predicate HandsHonest(s: State)
  {
    forall t :: t in s.threads && s.threads[t].Inserting? ==>
      s.threads[t].ptr in s.table.val && s.table.val[s.threads[t].ptr] == s.threads[t].content
  }

  /** Everything that does not depend on the table lock. */
  ghost predicate Sane(s: State)
  {
    LocksAgree(s) && RibsWellFormed(s) && Conserved(s) && HandsHonest(s) && SweepsTracked(s)
  }

  ghost predicate Inv(s: State)
  {
    Sane(s) && TableAgrees(s)
  }

  ghost predicate Init(s: State)
  {
    && s.table == EmptyTable(s.table.hash)
    && (forall r :: r in s.ribs ==> s.ribs[r] == map[])
    && (forall t :: t in s.threads ==> s.threads[t] == Idle)
    && s.owner == map[] && s.lock == Free && s.sound
  }

  lemma InitHoldsNothing(s: State)
    requires Init(s)
    ensures Held(s) == multiset{}
  {
    NothingAnywhere(s);
  }

  lemma NothingAnywhere(s: State)
    requires forall r :: r in s.ribs ==> s.ribs[r] == map[]
    requires forall t :: t in s.threads ==> s.threads[t].Refs() == multiset{}
    ensures Held(s) == multiset{}
  {
    forall r | r in s.ribs ensures RibRefs(s.ribs)(r) == multiset{} {
      assert s.ribs[r].Keys == {};
    }
    EmptyTerms(s.ribs.Keys, RibRefs(s.ribs));
    EmptyTerms(s.threads.Keys, ThreadRefs(s.threads));
  }

  lemma InitInv(s: State)
    requires Init(s)
    ensures Inv(s)
  {
    InitHoldsNothing(s);
    EmptyIsConsistent<Ptr>(s.table.hash);
  }

  // ---- How one step moves references --------------------------------------------------------------------

  lemma HandsChange(threads: map<ThreadId, Phase>, t: ThreadId, ph: Phase)
    requires t in threads
    ensures InHands(threads[t := ph]) + threads[t].Refs() == InHands(threads) + ph.Refs()
  {
    var after := threads[t := ph];
    assert after.Keys == threads.Keys;
    ChangeTerm(threads.Keys, ThreadRefs(threads), ThreadRefs(after), t);
  }

  lemma TriesChange(ribs: map<RibId, Trie>, r: RibId, m: Trie)
    requires r in ribs
    ensures InTries(ribs[r := m]) + Occurrences(ribs[r]) == InTries(ribs) + Occurrences(m)
  {
    var after := ribs[r := m];
    assert after.Keys == ribs.Keys;
    ChangeTerm(ribs.Keys, RibRefs(ribs), RibRefs(after), r);
  }

  /** A step that moves references between a trie and a hand leaves the total alone. */
  lemma HeldSame(s: State, t: ThreadId, ph: Phase, r: RibId, m: Trie)
    requires t in s.threads && r in s.ribs
    requires Occurrences(m) + ph.Refs() == Occurrences(s.ribs[r]) + s.threads[t].Refs()
    ensures Held(Edit(s, t, ph, r, m)) == Held(s)
  {
    HandsChange(s.threads, t, ph);
    TriesChange(s.ribs, r, m);
    hide *;
    HeldParts(s);
    HeldParts(Edit(s, t, ph, r, m));
    EditParts(s, t, ph, r, m);
    Cancel(InTries(s.ribs[r := m]), InHands(s.threads[t := ph]), InTries(s.ribs), InHands(s.threads),
           Occurrences(s.ribs[r]), s.threads[t].Refs(), Occurrences(m), ph.Refs());
  }

  lemma HeldParts(s: State)
    ensures Held(s) == InTries(s.ribs) + InHands(s.threads)
  {
  }

  lemma EditParts(s: State, t: ThreadId, ph: Phase, r: RibId, m: Trie)
    ensures Edit(s, t, ph, r, m) == s.(threads := s.threads[t := ph], ribs := s.ribs[r := m])
    ensures To(s, t, ph) == s.(threads := s.threads[t := ph])
  {
  }

  lemma Cancel<P>(x': multiset<P>, y': multiset<P>, x: multiset<P>, y: multiset<P>,
                  a: multiset<P>, b: multiset<P>, a': multiset<P>, b': multiset<P>)
    requires x' + a == x + a' && y' + b == y + b' && a' + b' == a + b
    ensures x' + y' == x + y
  {
    forall p: P ensures (x' + y')[p] == (x + y)[p] {
      assert (x' + a)[p] == (x + a')[p] && (y' + b)[p] == (y + b')[p] && (a' + b')[p] == (a + b)[p];
    }
    Extensional(x' + y', x + y);
  }

  lemma HeldTo(s: State, t: ThreadId, ph: Phase)
    requires t in s.threads
    ensures Held(To(s, t, ph)) + s.threads[t].Refs() == Held(s) + ph.Refs()
  {
    HandsChange(s.threads, t, ph);
    var x, y := InTries(s.ribs), InHands(s.threads[t := ph]);
    assert x + y + s.threads[t].Refs() == x + (y + s.threads[t].Refs());
  }

  lemma HandInHeld(s: State, t: ThreadId)
    requires t in s.threads
    ensures s.threads[t].Refs() <= Held(s)
  {
    TermBelowSum(s.threads.Keys, ThreadRefs(s.threads), t);
  }

  lemma TrieInHeld(s: State, r: RibId)
    requires r in s.ribs
    ensures Occurrences(s.ribs[r]) <= Held(s)
  {
    TermBelowSum(s.ribs.Keys, RibRefs(s.ribs), r);
  }
}
