/** The life of one path: what callers see of it after any history is decided by the events that concern
    its prefix and ID, whatever else happened. */
module Histories {
  import opened Addressing
  import opened Attributes
  import opened Laws
  import opened Reference
  import opened RibModel
  import opened Selection
  import Restart
  import Runs

  datatype Event = Edited(edit: Restart.Edit) | Marked | Flushed | Cleared

  function After(f: Family, m: Store, ev: Event): Store
  {
    match ev
    case Edited(e) => Restart.Apply(f, m, e)
    case Marked => MarkAllStale(m)
    case Flushed => DropStale(m)
    case Cleared => map[]
  }

  function AfterAll(f: Family, m: Store, evs: seq<Event>): Store
  {
    if evs == [] then m else After(f, AfterAll(f, m, evs[..|evs| - 1]), evs[|evs| - 1])
  }

  /** An announcement or withdrawal of this path: a prefix counts up to its host bits, and one the family
      does not store is never meant. */
  predicate Names(f: Family, e: Restart.Edit, p: Prefix, id: uint32)
  {
    match e
    case Announce(r) => Accepts(f, r.prefix) && MaskedPrefix(r.prefix) == p && r.pathID == id
    case Withdraw(w) => Concerns(f, w.prefix) && MaskedPrefix(w.prefix) == p && w.pathID == id
  }

  datatype Fate = Gone | Live(attrs: AttrContent) | Waiting(attrs: AttrContent)

  function Turn(f: Family, fate: Fate, ev: Event, p: Prefix, id: uint32): Fate
  {
    match ev
    case Edited(e) =>
      if !Names(f, e, p, id) then fate else if e.Announce? then Live(e.route.attributes) else Gone
    case Marked => if fate.Live? then Waiting(fate.attrs) else fate
    case Flushed => if fate.Waiting? then Gone else fate
    case Cleared => Gone
  }

  function FateOf(f: Family, evs: seq<Event>, p: Prefix, id: uint32): Fate
  {
    if evs == [] then Gone else Turn(f, FateOf(f, evs[..|evs| - 1], p, id), evs[|evs| - 1], p, id)
  }

  /** The fate of a path tells which route with attributes `c` callers see under its prefix and ID. A path
      that waits may be missing: its slot may have been reused. */
  ghost predicate Tells(f: Family, m: Store, p: Prefix, id: uint32, c: AttrContent, fate: Fate)
    requires Concerns(f, p)
  {
    && (Route(MaskedPrefix(p), c, id, false) in AllPaths(f, m, p) <==> fate == Live(c))
    && (Route(MaskedPrefix(p), c, id, true) in AllPaths(f, m, p) ==> fate == Waiting(c))
  }

  lemma AnnounceTurn(f: Family, m: Store, a: Announcement, p: Prefix, id: uint32, c: AttrContent, fate: Fate)
    requires WellFormed(m) && Concerns(f, p) && Tells(f, m, p, id, c, fate)
    ensures var ev := Edited(Restart.Announce(a));
      Tells(f, After(f, m, ev), p, id, c, Turn(f, fate, ev, MaskedPrefix(p), id))
  {
    hide AllPaths, Masked, WellFormed, Accepts;
    if Accepts(f, a.prefix) {
      AcceptsConcerns(f, a.prefix);
      AnnouncedIsThere(f, m, a, p, Route(MaskedPrefix(p), c, id, false));
      AnnouncedIsThere(f, m, a, p, Route(MaskedPrefix(p), c, id, true));
      SamePrefixSamePaths(f, InsertRoute(f, m, a), p, a.prefix);
    }
  }

  lemma AcceptsConcerns(f: Family, p: Prefix)
    requires Accepts(f, p)
    ensures Concerns(f, p)
  {
  }

  lemma SamePrefixSamePaths(f: Family, m: Store, p: Prefix, q: Prefix)
    requires Concerns(f, p) && Concerns(f, q)
    ensures MaskedPrefix(p) == MaskedPrefix(q) ==> AllPaths(f, m, p) == AllPaths(f, m, q)
  {
    SameNode(f, p, q);
  }

  lemma WithdrawTurn(f: Family, m: Store, w: Withdrawal, p: Prefix, id: uint32, c: AttrContent, fate: Fate)
    requires WellFormed(m) && Concerns(f, p) && Tells(f, m, p, id, c, fate)
    ensures var ev := Edited(Restart.Withdraw(w));
      Tells(f, After(f, m, ev), p, id, c, Turn(f, fate, ev, MaskedPrefix(p), id))
  {
    hide AllPaths, Masked, WellFormed;
    WithdrawnIsGone(f, m, w, p, Route(MaskedPrefix(p), c, id, false));
    WithdrawnIsGone(f, m, w, p, Route(MaskedPrefix(p), c, id, true));
  }

  lemma MarkTurn(f: Family, m: Store, p: Prefix, id: uint32, c: AttrContent, fate: Fate)
    requires Concerns(f, p) && Tells(f, m, p, id, c, fate)
    ensures Tells(f, After(f, m, Marked), p, id, c, Turn(f, fate, Marked, MaskedPrefix(p), id))
  {
    hide AllPaths, Masked;
    MarkedExactly(f, m, p);
    var rs, after, live := AllPaths(f, m, p), AllPaths(f, MarkAllStale(m), p), Route(MaskedPrefix(p), c, id, false);
    if live.(stale := true) in after {
      var i :| 0 <= i < |after| && after[i] == live.(stale := true);
      assert rs[i] in rs && (rs[i] == live || rs[i] == live.(stale := true));
    }
  }

  lemma FlushTurn(f: Family, m: Store, p: Prefix, id: uint32, c: AttrContent, fate: Fate)
    requires Concerns(f, p) && Tells(f, m, p, id, c, fate)
    ensures Tells(f, After(f, m, Flushed), p, id, c, Turn(f, fate, Flushed, MaskedPrefix(p), id))
  {
    hide AllPaths, Masked;
    FlushedExactly(f, m, p);
    NotStaleMembers(AllPaths(f, m, p), Route(MaskedPrefix(p), c, id, false));
    NotStaleMembers(AllPaths(f, m, p), Route(MaskedPrefix(p), c, id, true));
  }

  lemma {:induction false} NotStaleMembers(rs: seq<Announcement>, r: Announcement)
    ensures r in NotStale(rs) <==> r in rs && !r.stale
  {
    if rs != [] {
      var n := |rs| - 1;
      NotStaleMembers(rs[..n], r);
      assert rs == rs[..n] + [rs[n]];
    }
  }

  lemma OneTurn(f: Family, m: Store, ev: Event, p: Prefix, id: uint32, c: AttrContent, fate: Fate)
    requires WellFormed(m) && Concerns(f, p) && Tells(f, m, p, id, c, fate)
    ensures Tells(f, After(f, m, ev), p, id, c, Turn(f, fate, ev, MaskedPrefix(p), id))
  {
    hide *;
    match ev
    case Edited(e) =>
      match e {
        case Announce(a) => AnnounceTurn(f, m, a, p, id, c, fate);
        case Withdraw(w) => WithdrawTurn(f, m, w, p, id, c, fate);
      }
    case Marked => MarkTurn(f, m, p, id, c, fate);
    case Flushed => FlushTurn(f, m, p, id, c, fate);
    case Cleared => ClearTurn(f, m, p, id, c, fate);
  }

  lemma ClearTurn(f: Family, m: Store, p: Prefix, id: uint32, c: AttrContent, fate: Fate)
    requires Concerns(f, p)
    ensures Tells(f, After(f, m, Cleared), p, id, c, Turn(f, fate, Cleared, MaskedPrefix(p), id))
  {
    hide KeyOf, Masked;
  }

  lemma AfterKeepsWellFormed(f: Family, m: Store, ev: Event)
    requires WellFormed(m)
    ensures WellFormed(After(f, m, ev))
  {
    hide MarkAllStale, DropStale, Restart.Apply;
    var k: Key := Root(0);
    EditsKeepWellFormed(m, k, 0, EMPTY);
    if ev.Edited? { Restart.ApplyKeepsWellFormed(f, m, ev.edit); }
  }

  /** The life of a path over any history from an empty RIB: its last announcement shows, not stale, until
      its withdrawal, a mark or a reset; after a mark it may show as stale until it is announced again,
      withdrawn or flushed. No event about other prefixes or IDs matters to what is not stale. */
  lemma {:induction false} PathLife(f: Family, evs: seq<Event>, p: Prefix, id: uint32, c: AttrContent)
    requires Concerns(f, p)
    ensures WellFormed(AfterAll(f, map[], evs))
    ensures Tells(f, AfterAll(f, map[], evs), p, id, c, FateOf(f, evs, MaskedPrefix(p), id))
  {
    hide After, Tells, WellFormed, Masked, Turn;
    if evs == [] {
      FreshStart(f, p, id, c);
    } else {
      var n := |evs| - 1;
      PathLife(f, evs[..n], p, id, c);
      var m := AfterAll(f, map[], evs[..n]);
      OneTurn(f, m, evs[n], p, id, c, FateOf(f, evs[..n], MaskedPrefix(p), id));
      AfterKeepsWellFormed(f, m, evs[n]);
    }
  }

  lemma FreshStart(f: Family, p: Prefix, id: uint32, c: AttrContent)
    requires Concerns(f, p)
    ensures WellFormed<AttrContent>(map[]) && Tells(f, map[], p, id, c, Gone)
  {
    hide KeyOf, Masked;
  }

  // ---- Sessions -----------------------------------------------------------------------------------------

  /** The events one operation of a session amounts to: a batch is its elements, a query is none. */
  function EventsOf(op: Runs.Operation): seq<Event>
  {
    if op.MarkStale? then [Marked]
    else if op.FlushStale? then [Flushed]
    else if op.Reset? then [Cleared]
    else AsEvents(Runs.EditsOf(op))
  }

  function AsEvents(es: seq<Restart.Edit>): (evs: seq<Event>)
    ensures |evs| == |es|
  {
    seq(|es|, i requires 0 <= i < |es| => Edited(es[i]))
  }

  function History(ops: seq<Runs.Operation>): seq<Event>
  {
    if ops == [] then [] else History(ops[..|ops| - 1]) + EventsOf(ops[|ops| - 1])
  }

  lemma {:induction false} EditsAsEvents(f: Family, m: Store, es: seq<Restart.Edit>)
    ensures AfterAll(f, m, AsEvents(es)) == Restart.ApplyAll(f, m, es)
  {
    if es != [] {
      var n := |es| - 1;
      EditsAsEvents(f, m, es[..n]);
      assert AsEvents(es)[..n] == AsEvents(es[..n]);
      hide Restart.Apply;
    }
  }

  lemma UpdateAsEvents(f: Family, m: Store, op: Runs.Operation)
    ensures Runs.Update(f, m, op) == AfterAll(f, m, EventsOf(op))
  {
    hide Runs.EditsOf, MarkAllStale, DropStale, Restart.Apply, AsEvents;
    if Runs.Resyncs(op) {
      Runs.UpdateAsEdits(f, m, op);
      EditsAsEvents(f, m, Runs.EditsOf(op));
    } else {
      SingleEvent(f, m, EventsOf(op)[0]);
    }
  }

  lemma SingleEvent(f: Family, m: Store, ev: Event)
    ensures AfterAll(f, m, [ev]) == After(f, m, ev)
  {
    hide After;
    assert [ev][..0] == [];
  }

  lemma {:induction false} AfterConcat(f: Family, m: Store, a: seq<Event>, b: seq<Event>)
    ensures AfterAll(f, m, a + b) == AfterAll(f, AfterAll(f, m, a), b)
  {
    hide After;
    if b == [] {
      assert a + b == a;
    } else {
      assert (a + b)[..|a + b| - 1] == a + b[..|b| - 1];
      AfterConcat(f, m, a, b[..|b| - 1]);
    }
  }

  lemma {:induction false} RunAsEvents(f: Family, m: Store, ops: seq<Runs.Operation>)
    ensures Runs.UpdateAll(f, m, ops) == AfterAll(f, m, History(ops))
  {
    hide Runs.Update, After, EventsOf;
    if ops != [] {
      var n := |ops| - 1;
      RunAsEvents(f, m, ops[..n]);
      UpdateAsEvents(f, Runs.UpdateAll(f, m, ops[..n]), ops[n]);
      AfterConcat(f, m, History(ops[..n]), EventsOf(ops[n]));
    }
  }

  /** What any session answers about a path, from the events of the session that concern it: a route that
      is not stale is listed if and only if it is what the last of them wrote, and a stale one only if it
      was written, then marked, and not flushed since. */
  lemma SessionPaths(f: Family, ops: seq<Runs.Operation>, p: Prefix, id: uint32, c: AttrContent)
    requires Concerns(f, p)
    ensures var a := Runs.Respond(f, Runs.UpdateAll(f, map[], ops), Runs.AllPaths(p));
      var fate := FateOf(f, History(ops), MaskedPrefix(p), id);
      && a.Many?
      && (Route(MaskedPrefix(p), c, id, false) in a.routes <==> fate == Live(c))
      && (Route(MaskedPrefix(p), c, id, true) in a.routes ==> fate == Waiting(c))
  {
    hide Runs.UpdateAll, AfterAll, FateOf, Reference.AllPaths, Masked;
    RunAsEvents(f, map[], ops);
    PathLife(f, History(ops), p, id, c);
  }
}
