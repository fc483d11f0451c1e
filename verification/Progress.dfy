/** Progress under two kinds of locks: no deadlock, because RIB locks and the table lock are only ever
    taken in that order, and a bound on how many steps of its own an operation takes. */
module Progress {
  import opened Addressing
  import opened Attributes
  import opened AttrModel
  import opened Interleaving
  import opened PathSeq
  import opened Protocol
  import opened RibModel
  import opened Sweeps

  // ---- No deadlock ----------------------------------------------------------------------------------------

  /** The next step of `t` needs a lock that `u` holds. */
  ghost predicate WaitsFor(s: State, t: ThreadId, u: ThreadId)
  {
    && t in s.threads
    && ((s.threads[t].Waiting? && s.threads[t].rib in s.owner && s.owner[s.threads[t].rib] == u)
        || (s.threads[t].Wants() && s.lock.Taken? && s.lock.holder == u && u != t))
  }

  /** The lock order: whoever holds the table lock waits for no lock, and whoever waits for a RIB holds
      no lock at all. A thread that releases references after its RIB lock is gone holds no RIB. */
  lemma LockOrder(s: State, t: ThreadId)
    requires LocksAgree(s) && TableAgrees(s) && t in s.threads
    ensures HasTable(s, t) ==> forall u :: !WaitsFor(s, t, u)
    ensures s.threads[t].Waiting? ==> !HasTable(s, t) && forall r :: r in s.owner ==> s.owner[r] != t
    ensures s.threads[t].Flushing? || s.threads[t].Detached? ==> forall r :: r in s.owner ==> s.owner[r] != t
  {
  }

  lemma {:induction false} UnusedPointer(used: set<Ptr>) returns (p: Ptr)
    ensures p !in used && forall q :: q in used ==> q < p
    decreases |used|
  {
    if used == {} {
      p := 0;
    } else {
      var q :| q in used;
      var r := UnusedPointer(used - {q});
      p := if q < r then r else q + 1;
      assert used == (used - {q}) + {q};
    }
  }

  lemma NothingToSweep(m: Trie)
    requires WellFormed(m) && forall k :: k in m ==> FirstStale(m[k]) == |m[k]|
    ensures DropStale(m) == m
  {
    forall k | k in m ensures Fresh(m[k]) == m[k] {
      FreshNothingStale(m[k]);
    }
    hide Fresh, FirstStale;
    assert DropStale(m).Keys == m.Keys;
  }

  /** A flush can always go on: remove a stale path, or stop when there is none. */
  lemma SweepGoesOn(s: State, t: ThreadId) returns (a: Action)
    requires LocksAgree(s) && RibsWellFormed(s) && t in s.threads && s.threads[t].Sweeping?
    ensures Move(s, t, a).Some? && !InSection(a) && !a.AcquireTable? && !a.ReleaseTable?
  {
    hide Held, Occurrences, Fresh, DropStale, RibModel.Delete, Deleted;
    var r := s.threads[t].rib;
    assert s.threads[t].Holds() == Some(r);
    a := EndSweep;
    if k :| k in s.ribs[r] && FirstStale(s.ribs[r][k]) < |s.ribs[r][k]| {
      a := SweepOne(k);
    } else {
      NothingToSweep(s.ribs[r]);
    }
  }

  /** The holder of the table lock can do its work or drop the lock. */
  lemma HolderGoesOn(s: State, t: ThreadId) returns (a: Action)
    requires TableAgrees(s) && t in s.threads && HasTable(s, t) && |Held(s)| + 1 < TWO_32
    ensures Advance(s, t, a).Some?
  {
    hide Held, Occurrences, GetOrInsert, Drop, Release;
    if s.lock.used {
      a := ReleaseTable;
    } else {
      match s.threads[t]
      case Fetching(_, _, _, _) =>
        var spare := UnusedPointer(s.table.val.Keys);
        a := TakeRef(spare);
      case Displacing(_, _) => a := DropRef;
      case Flushing(tally) =>
        var p :| p in tally;
        a := FlushOne(p);
    }
  }

  /** A thread in the middle of an operation that waits for nobody can step. */
  lemma FreeToGo(s: State, t: ThreadId) returns (a: Action)
    requires LocksAgree(s) && TableAgrees(s) && RibsWellFormed(s) && |Held(s)| + 1 < TWO_32
    requires t in s.threads && s.threads[t] != Idle && forall u :: !WaitsFor(s, t, u)
    ensures Advance(s, t, a).Some?
  {
    if HasTable(s, t) {
      a := HolderGoesOn(s, t);
    } else if s.threads[t].Wants() {
      assert s.lock.Taken? ==> WaitsFor(s, t, s.lock.holder);
      a := AcquireTable;
    } else {
      a := FreeMove(s, t);
    }
  }

  lemma FreeMove(s: State, t: ThreadId) returns (a: Action)
    requires LocksAgree(s) && RibsWellFormed(s) && t in s.threads && s.threads[t] != Idle && !s.threads[t].Wants()
    requires !HasTable(s, t) && forall u :: !WaitsFor(s, t, u)
    ensures Advance(s, t, a).Some?
  {
    hide Held, Occurrences, RibsWellFormed;
    match s.threads[t]
    case Waiting(r) =>
      assert r in s.owner ==> WaitsFor(s, t, s.owner[r]);
      a := Lock;
    case Locked(r) =>
      assert s.threads[t].Holds() == Some(r);
      a := Unlock;
    case Inserting(r, _, _, _, _) =>
      assert s.threads[t].Holds() == Some(r);
      a := StorePath;
    case Sweeping(_, _, _, _) => a := SweepGoesOn(s, t);
    case Detached(_) => a := WalkDetached;
    case Flushing(_) => a := FinishFlush;
  }

  /** No deadlock: from any thread in the middle of an operation, at most two waits lead to a thread that
      can step. */
  lemma NoDeadlock(s: State, t: ThreadId) returns (u: ThreadId, a: Action)
    requires LocksAgree(s) && TableAgrees(s) && RibsWellFormed(s) && |Held(s)| + 1 < TWO_32
    requires t in s.threads && s.threads[t] != Idle
    ensures u in s.threads && Advance(s, u, a).Some?
    ensures u == t || WaitsFor(s, t, u) || exists v :: WaitsFor(s, t, v) && WaitsFor(s, v, u)
  {
    hide Advance, Held, RibsWellFormed;
    u := t;
    if v :| WaitsFor(s, t, v) {
      HolderIsBusy(s, t, v);
      u := v;
      if w :| WaitsFor(s, v, w) {
        HolderIsBusy(s, v, w);
        SecondWaitIsForTheTable(s, t, v, w);
        LockOrder(s, w);
        u := w;
      }
    }
    a := FreeToGo(s, u);
  }

  lemma HolderIsBusy(s: State, t: ThreadId, u: ThreadId)
    requires LocksAgree(s) && TableAgrees(s) && WaitsFor(s, t, u)
    ensures u in s.threads && s.threads[u] != Idle
  {
  }

  lemma SecondWaitIsForTheTable(s: State, t: ThreadId, v: ThreadId, w: ThreadId)
    requires LocksAgree(s) && TableAgrees(s) && WaitsFor(s, t, v) && WaitsFor(s, v, w)
    ensures HasTable(s, w)
  {
    LockOrder(s, v);
  }

  /** In every reachable state with room for one more reference. */
  lemma NeverStuck(s: State, steps: seq<Step>, t: ThreadId) returns (u: ThreadId, a: Action)
    requires Init(s) && Run(s, steps).Some?
    requires var v := Run(s, steps).value; t in v.threads && v.threads[t] != Idle && |Held(v)| + 1 < TWO_32
    ensures var v := Run(s, steps).value; u in v.threads && Advance(v, u, a).Some?
    ensures var v := Run(s, steps).value;
      u == t || WaitsFor(v, t, u) || exists w :: WaitsFor(v, t, w) && WaitsFor(v, w, u)
  {
    RunKeepsInv(s, steps);
    hide Run, Advance, Held, WaitsFor;
    SaneParts(Run(s, steps).value);
    u, a := NoDeadlock(Run(s, steps).value, t);
  }

  // ---- Every operation ends -------------------------------------------------------------------------------

  /** Actions with which a thread takes up new work. */
  predicate Starts(a: Action)
  {
    a.Begin? || a.Peek? || a.BeginInsert? || a.RemovePath? || a.MarkStale? || a.BeginSweep? || a.Detach?
  }

  /** What the table lock still costs: dropping it, then taking it. */
  ghost function Section(s: State, t: ThreadId): nat
  {
    if HasTable(s, t) then (if s.lock.used then 2 else 0) else 1
  }

  /** An upper bound on the steps a thread needs to finish what it is doing. */
  ghost function Work(s: State, t: ThreadId): nat
    requires t in s.threads
  {
    var n := Section(s, t);
    match s.threads[t]
    case Idle => 0
    case Waiting(_) => 1 + n
    case Locked(_) => n
    case Displacing(_, _) => 3 + n
    case Inserting(_, _, _, _, _) => 4 + n
    case Fetching(_, _, _, _) => 7 + n
    case Flushing(tally) => 3 * |tally| + 1 + n
    case Detached(trie) => 3 * |Occurrences(trie)| + 2 + n
    case Sweeping(r, tally, _, _) =>
      (if r in s.ribs then 4 * |Occurrences(s.ribs[r])| else 0) + 3 * |tally| + 2 + n
  }

  lemma FewerToSweep(m: Trie, k: Key)
    requires WellFormed(m)
    requires var i := FirstStale(At(m, k)); i < |At(m, k)|
    ensures var id := At(m, k)[FirstStale(At(m, k))].pathID;
      && |Ref(Deleted(At(m, k), id))| == 1
      && |Occurrences(RibModel.Delete(m, k, id))| + 1 == |Occurrences(m)|
  {
    var id := At(m, k)[FirstStale(At(m, k))].pathID;
    SweepStart(m, k);
    SweepStep(m, m, k, id);
    hide Occurrences, RibModel.Delete, Deleted;
    var d := Deleted(At(m, k), id).value;
    assert |Occurrences(RibModel.Delete(m, k, id)) + multiset{d}| == |Occurrences(RibModel.Delete(m, k, id))| + 1;
  }

  lemma FewerToFlush(tally: multiset<Ptr>, p: Ptr)
    requires p in tally
    ensures |tally[p := 0]| < |tally|
  {
    TakeOut<Ptr>(tally, p);
    var gone := Copies<Ptr>(p, tally[p]);
    assert |tally[p := 0] + gone| == |tally[p := 0]| + |gone|;
    assert p in gone;
  }

  /** Every step of an operation brings its end nearer. */
  lemma OwnStepsDescend(s: State, t: ThreadId, a: Action)
    requires LocksAgree(s) && TableAgrees(s) && RibsWellFormed(s)
    requires t in s.threads && Advance(s, t, a).Some? && !Starts(a)
    ensures var u := Advance(s, t, a).value; t in u.threads && Work(u, t) < Work(s, t)
  {
    AdvanceParts(s, t, a);
    hide Advance, Held, Occurrences, GetOrInsert, Drop, Release, Insert, RibModel.Delete, RibModel.MarkAllStale;
    hide DropStale, WellFormed, FirstStale, Deleted, Displaced, Copies, Clamp;
    if !a.AcquireTable? && !a.ReleaseTable? {
      MoveDescends(s, t, a);
    }
  }

  /** The step of a flush under way. */
  lemma SweepDescends(s: State, t: ThreadId, a: Action)
    requires LocksAgree(s) && RibsWellFormed(s) && t in s.threads && s.threads[t].Sweeping? && Move(s, t, a).Some?
    requires !HasTable(s, t)
    ensures var u := Move(s, t, a).value; t in u.threads && u.lock == s.lock && Work(u, t) < Work(s, t)
  {
    hide Held, Occurrences, RibModel.Delete, DropStale, WellFormed, FirstStale, Deleted, At, Ref;
    var r, tally := s.threads[t].rib, s.threads[t].tally;
    if a.SweepOne? {
      FewerToSweep(s.ribs[r], a.key);
      var d := Ref(Deleted(At(s.ribs[r], a.key), At(s.ribs[r], a.key)[FirstStale(At(s.ribs[r], a.key))].pathID));
      assert |tally + d| == |tally| + 1;
    }
  }

  /** The step of a release under way. */
  lemma FlushDescends(s: State, t: ThreadId, a: Action)
    requires t in s.threads && s.threads[t].Flushing? && Move(s, t, a).Some? && HasTable(s, t) == InSection(a)
    ensures var u := Move(s, t, a).value.(lock := if InSection(a) then Taken(t, true) else s.lock);
      t in u.threads && Work(u, t) < Work(s, t)
  {
    hide Drop, Copies, Clamp;
    if a.FlushOne? { FewerToFlush(s.threads[t].tally, a.ptr); }
  }

  lemma MoveDescends(s: State, t: ThreadId, a: Action)
    requires LocksAgree(s) && TableAgrees(s) && RibsWellFormed(s) && t in s.threads && Move(s, t, a).Some? && !Starts(a)
    requires HasTable(s, t) == InSection(a)
    ensures var u := Move(s, t, a).value.(lock := if InSection(a) then Taken(t, true) else s.lock);
      t in u.threads && Work(u, t) < Work(s, t)
  {
    hide Held, Occurrences, GetOrInsert, Drop, Release, Insert, RibModel.Delete, RibModel.MarkAllStale, DropStale;
    hide LocksAgree, RibsWellFormed, FirstStale, Deleted, Displaced, Copies, Clamp, At, Ref, FromSweeping;
    match s.threads[t]
    case Sweeping(_, _, _, _) => SweepDescends(s, t, a);
    case Flushing(_) => FlushDescends(s, t, a);
    case _ =>
  }

  lemma OthersKeepSection(s: State, t: ThreadId, a: Action, x: ThreadId)
    requires t in s.threads && x != t && Advance(s, t, a).Some?
    ensures Section(Advance(s, t, a).value, x) == Section(s, x)
  {
    AdvanceParts(s, t, a);
    hide Advance, Move;
  }

  lemma SameWork(s: State, u: State, x: ThreadId)
    requires x in s.threads && x in u.threads && u.threads[x] == s.threads[x] && Section(u, x) == Section(s, x)
    requires var ph := s.threads[x];
      ph.Sweeping? ==> ph.rib in s.ribs && ph.rib in u.ribs && u.ribs[ph.rib] == s.ribs[ph.rib]
    ensures Work(u, x) == Work(s, x)
  {
    hide Section, Occurrences;
  }

  /** Steps of others do not put it off. */
  lemma OthersKeepWork(s: State, t: ThreadId, a: Action, x: ThreadId)
    requires LocksAgree(s) && t in s.threads && x in s.threads && x != t && Advance(s, t, a).Some?
    ensures var u := Advance(s, t, a).value; x in u.threads && Work(u, x) == Work(s, x)
  {
    AdvanceParts(s, t, a);
    OthersKeepSection(s, t, a, x);
    hide Advance, Move, Work, Section, InSection, HasTable;
    if !a.AcquireTable? && !a.ReleaseTable? {
      MoveIsLocal(s, t, a);
    }
    if s.threads[x].Sweeping? {
      assert s.threads[x].Holds() == Some(s.threads[x].rib);
    }
    SameWork(s, Advance(s, t, a).value, x);
  }

  /** How many of the steps are of one thread. */
  function StepsOf(steps: seq<Step>, t: ThreadId): nat
  {
    if steps == [] then 0
    else StepsOf(steps[..|steps| - 1], t) + if steps[|steps| - 1].thread == t then 1 else 0
  }

  lemma {:induction false} WorkRunsOut(s: State, steps: seq<Step>, t: ThreadId)
    requires Inv(s) && Run(s, steps).Some? && t in s.threads
    requires forall i :: 0 <= i < |steps| && steps[i].thread == t ==> !Starts(steps[i].action)
    ensures var u := Run(s, steps).value; t in u.threads && StepsOf(steps, t) + Work(u, t) <= Work(s, t)
  {
    hide Inv, Advance, Work;
    if steps != [] {
      var n := |steps| - 1;
      WorkRunsOut(s, steps[..n], t);
      InvKept(s, steps[..n]);
      hide Run, Starts;
      var u, e := Run(s, steps[..n]).value, steps[n];
      InvMeans(u);
      if e.thread == t {
        OwnStepsDescend(u, t, e.action);
      } else {
        OthersKeepWork(u, e.thread, e.action, t);
      }
    }
  }

  lemma InvMeans(s: State)
    requires Inv(s)
    ensures Sane(s) && LocksAgree(s) && TableAgrees(s) && RibsWellFormed(s)
  {
  }

  /** Between two items of new work a thread takes a bounded number of steps, however long the others
      delay it: at most as many as its work counts when the bound is taken. */
  lemma OperationsEnd(s: State, before: seq<Step>, steps: seq<Step>, t: ThreadId)
    requires Init(s) && Run(s, before).Some? && t in Run(s, before).value.threads
    requires Run(Run(s, before).value, steps).Some?
    requires forall i :: 0 <= i < |steps| && steps[i].thread == t ==> !Starts(steps[i].action)
    ensures StepsOf(steps, t) <= Work(Run(s, before).value, t)
  {
    RunKeepsInv(s, before);
    hide Inv, Init, Run, Work, Starts;
    WorkRunsOut(Run(s, before).value, steps, t);
  }
}
