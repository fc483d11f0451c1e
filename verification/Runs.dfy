/** Whole sessions: any sequence of operations on a RIB answers, call by call, as the same sequence on
    the reference map, and leaves the same content behind. */
module Runs {
  import opened Addressing
  import opened AttrModel
  import opened AttrTables
  import opened Attributes
  import opened Enumeration
  import opened PathSeq
  import opened Reference
  import opened RibModel
  import opened Ribs
  import opened Selection
  import opened Sweeps
  import opened Tries
  import opened Walks
  import Ledger
  import Listings
  import Queries
  import Restart

  datatype Operation =
    | Insert(route: Route<RouteAttributes?>)
    | InsertBatch(routes: seq<Route<RouteAttributes?>>)
    | Delete(path: Withdrawal)
    | DeleteBatch(paths: seq<Withdrawal>)
    | MarkStale
    | FlushStale
    | Reset
    | Search(ip: Addr)
    | AllPathsSearch(ip: Addr)
    | Lookup(prefix: Prefix)
    | AllPaths(prefix: Prefix)
    | AllPrefixes
    | Matching(query: Query)
    | Count
    | PathCount
    | Subnets(len: int)
  {
    predicate Changes()
    {
      Insert? || InsertBatch? || Delete? || DeleteBatch? || MarkStale? || FlushStale? || Reset?
    }
  }

  datatype Answer =
    | Done
    | Prefixes(prefixes: seq<Prefix>)
    | One(route: Option<Announcement>)
    | Many(routes: seq<Announcement>)
    | Number(n: int)
    | Panic

  // ---- The reference ------------------------------------------------------------------------------------

  function Update(f: Family, m: Store, op: Operation): Store
  {
    match op
    case Insert(r) => InsertRoute(f, m, Announced(r))
    case InsertBatch(rs) => InsertRoutes(f, m, Announcements(rs))
    case Delete(w) => DeleteRoute(f, m, w)
    case DeleteBatch(ws) => DeleteRoutes(f, m, ws)
    case MarkStale => MarkAllStale(m)
    case FlushStale => DropStale(m)
    case Reset => map[]
    case _ => m
  }

  ghost function Respond(f: Family, m: Store, op: Operation): Answer
  {
    match op
    case InsertBatch(rs) => Prefixes(NewPrefixes(f, m, Announcements(rs)))
    case DeleteBatch(ws) => Prefixes(RemovedPrefixes(f, m, ws))
    case FlushStale => Prefixes(FlushedPrefixes(f, m))
    case Search(ip) => One(Reference.Search(f, m, ip))
    case AllPathsSearch(ip) =>
      if ip.family == f && !f.Indexable(ip.bytes[0]) then Panic else Many(Reference.AllPathsSearch(f, m, ip))
    case Lookup(p) => One(Reference.Lookup(f, m, p))
    case AllPaths(p) => Many(Reference.AllPaths(f, m, p))
    case AllPrefixes => Prefixes(Reference.AllPrefixes(f, m))
    case Matching(q) => Many(MatchingAll(f, m, q))
    case Count => Number(|m|)
    case PathCount => Number(|Slots(m)|)
    case Subnets(len) => Number(|OfLength(m, len)|)
    case _ => Done
  }

  function UpdateAll(f: Family, m: Store, ops: seq<Operation>): Store
  {
    if ops == [] then m else Update(f, UpdateAll(f, m, ops[..|ops| - 1]), ops[|ops| - 1])
  }

  ghost function RespondAll(f: Family, m: Store, ops: seq<Operation>): (r: seq<Answer>)
    ensures |r| == |ops|
  {
    if ops == [] then []
    else
      var n := |ops| - 1;
      RespondAll(f, m, ops[..n]) + [Respond(f, UpdateAll(f, m, ops[..n]), ops[n])]
  }

  /** Before each route it stores an operation finds room for one more reference, next to `n` others. */
  ghost predicate Fits(f: Family, m: Store, n: nat, op: Operation)
  {
    match op
    case Insert(r) => Room(f, m, n, r.prefix)
    case InsertBatch(rs) =>
      forall i :: 0 <= i < |rs| ==> Room(f, InsertRoutes(f, m, Announcements(rs)[..i]), n, rs[i].prefix)
    case _ => true
  }

  lemma FitsMeans(f: Family, m: Store, n: nat, op: Operation)
    requires Fits(f, m, n, op)
    ensures op.Insert? ==> Room(f, m, n, op.route.prefix)
    ensures op.InsertBatch? ==>
      forall i :: 0 <= i < |op.routes| ==>
        Room(f, InsertRoutes(f, m, Announcements(op.routes)[..i]), n, op.routes[i].prefix)
  {
  }

  // ---- What the pointer map says about the map of content --------------------------------------------------

  lemma MarkSeen(m: Content)
    ensures Contents(MarkAllStale(m)) == MarkAllStale(Contents(m))
    ensures Occurrences(MarkAllStale(m)) == Occurrences(m)
  {
    ViewMark(ContentOf, m);
    MarkConserves(m);
  }

  lemma FlushSeen(f: Family, m: Content)
    ensures Contents(DropStale(m)) == DropStale(Contents(m))
    ensures ToPrefixes(f, PostOrderRoots(f, AllStale(m), f.RootSize())) == FlushedPrefixes(f, Contents(m))
  {
    ViewDrop(ContentOf, m);
    forall k | k in m ensures Fresh(m[k]) == [] <==> Fresh(Contents(m)[k]) == [] {
      MapFresh(ContentOf, m[k]);
    }
    hide Fresh, PostOrderRoots;
    assert AllStale(Contents(m)) == AllStale(m);
  }

  // ---- The session on the heap --------------------------------------------------------------------------

  /** The RIB and its table are in order, and the table counts exactly this RIB's references and
      `others`, those of everyone else. */
  ghost predicate Ready(r: Rib, others: multiset<RouteAttributes>)
    reads r, r.root, r.nodes.Values, r.attrTable, r.attrTable.live
  {
    r.Valid() && r.attrTable.Valid() && Counts(r.attrTable.Model(), Occurrences(r.content) + others)
  }

  lemma ReadyParts(r: Rib, others: multiset<RouteAttributes>)
    ensures Ready(r, others) <==>
      r.Valid() && r.attrTable.Valid() && Counts(r.attrTable.Model(), Occurrences(r.content) + others)
  {
  }

  /** An operation that changes the RIB. */
  method Change(r: Rib, op: Operation, ghost others: multiset<RouteAttributes>) returns (ans: Answer)
    requires Ready(r, others) && Fits(r.family, Contents(r.content), |others|, op)
    requires op.Changes()
    modifies r, r.root, r.nodes.Values, r.attrTable, r.attrTable.live`refCount
    ensures Ready(r, others) && fresh({r.root} - {old(r.root)})
    ensures fresh(r.nodes.Values - old(r.nodes.Values)) && fresh(r.attrTable.live - old(r.attrTable.live))
    ensures Contents(r.content) == Update(r.family, Contents(old(r.content)), op)
    ensures ans == Respond(r.family, Contents(old(r.content)), op)
  {
    hide *;
    ReadyParts(r, others);
    FitsMeans(r.family, Contents(r.content), |others|, op);
    OpFacts(r.family, r.content, op);
    MarkSeen(r.content);
    FlushSeen(r.family, r.content);
    NothingSeen(map[]);
    ans := Done;
    match op {
      case Insert(route) => r.Insert(route, others);
      case InsertBatch(routes) =>
        var ps := r.InsertBatch(routes, others);
        ans := Prefixes(ps);
      case Delete(w) => r.Delete(w.prefix, w.pathID, others);
      case DeleteBatch(ws) =>
        var ps := r.DeleteBatch(ws, others);
        ans := Prefixes(ps);
      case MarkStale => r.MarkAllStale();
      case FlushStale =>
        var ps := r.DeleteStaleRoutes(others);
        ans := Prefixes(ps);
      case Reset => r.Reset(others);
      case _ =>
    }
    ReadyParts(r, others);
  }

  /** What each update means, with the reference functions unfolded once. */
  lemma OpFacts(f: Family, m: Content, op: Operation)
    ensures op.Changes() <==>
      op.Insert? || op.InsertBatch? || op.Delete? || op.DeleteBatch? || op.MarkStale? || op.FlushStale? || op.Reset?
    ensures op.Insert? || op.Delete? || op.MarkStale? || op.Reset? ==> Respond(f, Contents(m), op) == Done
    ensures op.Insert? ==> Update(f, Contents(m), op) == InsertRoute(f, Contents(m), Announced(op.route))
    ensures op.InsertBatch? ==>
      && Respond(f, Contents(m), op) == Prefixes(NewPrefixes(f, Contents(m), Announcements(op.routes)))
      && Update(f, Contents(m), op) == InsertRoutes(f, Contents(m), Announcements(op.routes))
    ensures op.Delete? ==>
      Update(f, Contents(m), op) == DeleteRoute(f, Contents(m), Withdrawal(op.path.prefix, op.path.pathID))
    ensures op.DeleteBatch? ==>
      && Respond(f, Contents(m), op) == Prefixes(RemovedPrefixes(f, Contents(m), op.paths))
      && Update(f, Contents(m), op) == DeleteRoutes(f, Contents(m), op.paths)
    ensures op.MarkStale? ==> Update(f, Contents(m), op) == RibModel.MarkAllStale(Contents(m))
    ensures op.FlushStale? ==>
      && Respond(f, Contents(m), op) == Prefixes(FlushedPrefixes(f, Contents(m)))
      && Update(f, Contents(m), op) == DropStale(Contents(m))
    ensures op.Reset? ==> Update(f, Contents(m), op) == map[]
  {
    hide Contents, InsertRoute, InsertRoutes, DeleteRoute, DeleteRoutes, NewPrefixes, RemovedPrefixes, FlushedPrefixes;
    hide RibModel.MarkAllStale, DropStale, Announcements;
  }

  lemma NothingSeen(m: Content)
    requires m == map[]
    ensures Contents(m) == map[]
  {
  }

  /** An operation that only reads. */
  method Ask(r: Rib, op: Operation, ghost others: multiset<RouteAttributes>) returns (ans: Answer)
    requires Ready(r, others)
    requires !op.Changes()
    ensures ans == Respond(r.family, Contents(r.content), op)
    ensures Update(r.family, Contents(r.content), op) == Contents(r.content)
  {
    hide *;
    ReadyParts(r, others);
    r.ValidParts();
    ReadsOnly(r.family, Contents(r.content), op);
    ans := Done;
    match op {
      case Search(ip) =>
        var found := Queries.Search(r, ip);
        ans := One(Outward(found));
      case AllPathsSearch(ip) =>
        var found := Queries.AllPathsSearch(r, ip);
        ans := match found case Returned(rs) => Many(MapRoutes(ContentOf, rs)) case IndexPanic => Panic;
      case Lookup(p) =>
        var found := Queries.Lookup(r, p);
        ans := One(Outward(found));
      case AllPaths(p) =>
        var rs := Queries.AllPaths(r, p);
        ans := Many(MapRoutes(ContentOf, rs));
      case AllPrefixes =>
        var ps := Listings.AllPrefixes(r);
        ans := Prefixes(ps);
      case Matching(q) =>
        var rs := Listings.PrefixesMatching(r, q, others);
        ans := Many(MapRoutes(ContentOf, rs));
      case Count =>
        var n := Queries.Count(r);
        ans := Number(n);
      case PathCount =>
        var n := Queries.PathCount(r);
        ans := Number(n);
      case Subnets(len) =>
        var masks := Queries.GetSubnets(r);
        ans := Number(MaskCount(masks, len));
      case _ =>
    }
  }

  lemma ReadsOnly(f: Family, m: Store, op: Operation)
    requires !op.Changes()
    ensures !op.Insert? && !op.InsertBatch? && !op.Delete? && !op.DeleteBatch?
    ensures !op.MarkStale? && !op.FlushStale? && !op.Reset?
    ensures Update(f, m, op) == m
    ensures op.Search? ==> Respond(f, m, op) == One(Reference.Search(f, m, op.ip))
    ensures op.AllPathsSearch? ==>
      Respond(f, m, op) == (if op.ip.family == f && !f.Indexable(op.ip.bytes[0]) then Panic
          else Many(Reference.AllPathsSearch(f, m, op.ip)))
    ensures op.Lookup? ==> Respond(f, m, op) == One(Reference.Lookup(f, m, op.prefix))
    ensures op.AllPaths? ==> Respond(f, m, op) == Many(Reference.AllPaths(f, m, op.prefix))
    ensures op.AllPrefixes? ==> Respond(f, m, op) == Prefixes(Reference.AllPrefixes(f, m))
    ensures op.Matching? ==> Respond(f, m, op) == Many(MatchingAll(f, m, op.query))
    ensures op.Count? ==> Respond(f, m, op) == Number(|m|)
    ensures op.PathCount? ==> Respond(f, m, op) == Number(|Slots(m)|)
    ensures op.Subnets? ==> Respond(f, m, op) == Number(|OfLength(m, op.len)|)
  {
  }

  /** One operation of either kind. */
  method Perform(r: Rib, op: Operation, ghost others: multiset<RouteAttributes>) returns (ans: Answer)
    requires Ready(r, others) && Fits(r.family, Contents(r.content), |others|, op)
    modifies r, r.root, r.nodes.Values, r.attrTable, r.attrTable.live`refCount
    ensures Ready(r, others) && fresh({r.root} - {old(r.root)})
    ensures fresh(r.nodes.Values - old(r.nodes.Values)) && fresh(r.attrTable.live - old(r.attrTable.live))
    ensures Contents(r.content) == Update(r.family, Contents(old(r.content)), op)
    ensures ans == Respond(r.family, Contents(old(r.content)), op)
  {
    hide *;
    if op.Changes() {
      ans := Change(r, op, others);
    } else {
      ans := Ask(r, op, others);
    }
  }

  lemma RunNext(f: Family, m: Store, ops: seq<Operation>, i: nat)
    requires i < |ops|
    ensures UpdateAll(f, m, ops[..i + 1]) == Update(f, UpdateAll(f, m, ops[..i]), ops[i])
    ensures RespondAll(f, m, ops[..i + 1]) == RespondAll(f, m, ops[..i]) + [Respond(f, UpdateAll(f, m, ops[..i]),
        ops[i])]
  {
    hide Update, Respond;
    assert ops[..i + 1][..i] == ops[..i];
  }

  lemma RunStart(f: Family, m: Store, ops: seq<Operation>)
    ensures UpdateAll(f, m, ops[..0]) == m && RespondAll(f, m, ops[..0]) == []
  {
  }

  /** Refinement over whole runs: every answer of every call and the final content are those of the
      reference map, from any state a RIB can be in and whatever else shares its table. */
  method RunAll(r: Rib, ops: seq<Operation>, ghost others: multiset<RouteAttributes>) returns (answers: seq<Answer>)
    requires Ready(r, others)
    requires forall i :: 0 <= i < |ops| ==>
      Fits(r.family, UpdateAll(r.family, Contents(r.content), ops[..i]), |others|, ops[i])
    modifies r, r.root, r.nodes.Values, r.attrTable, r.attrTable.live`refCount
    ensures Ready(r, others)
    ensures Contents(r.content) == UpdateAll(r.family, Contents(old(r.content)), ops)
    ensures answers == RespondAll(r.family, Contents(old(r.content)), ops)
  {
    hide *;
    ghost var m := Contents(r.content);
    RunStart(r.family, m, ops);
    answers := [];
    for i := 0 to |ops|
      invariant Ready(r, others) && fresh({r.root} - {old(r.root)})
      invariant fresh(r.nodes.Values - old(r.nodes.Values)) && fresh(r.attrTable.live - old(r.attrTable.live))
      invariant Contents(r.content) == UpdateAll(r.family, m, ops[..i])
      invariant answers == RespondAll(r.family, m, ops[..i])
    {
      RunNext(r.family, m, ops, i);
      var ans := Perform(r, ops[i], others);
      answers := answers + [ans];
    }
    assert ops[..|ops|] == ops;
  }

  /** A session on a new RIB with its own table. */
  method Session(f: Family, ops: seq<Operation>) returns (answers: seq<Answer>)
    requires forall i :: 0 <= i < |ops| ==> Fits(f, UpdateAll(f, map[], ops[..i]), 0, ops[i])
    ensures answers == RespondAll(f, map[], ops)
  {
    hide *;
    var at := new AttrTable();
    var r := new Rib(f, at);
    NewIsReady(r);
    answers := RunAll(r, ops, multiset{});
  }

  lemma NewIsReady(r: Rib)
    requires r.Valid() && r.content == map[] && r.attrTable.Valid() && Counts(r.attrTable.Model(), multiset{})
    ensures Ready(r, multiset{}) && Contents(r.content) == map[]
  {
    EmptyIsCounted(map[]);
    var none: Content := map[];
    assert none.Keys == {};
    assert Occurrences(none) == multiset{};
  }

  // ---- What every session can rely on -------------------------------------------------------------------

  lemma UpdateKeepsOrder(f: Family, m: Store, op: Operation)
    requires WellFormed(m) && Admitted(f, m)
    ensures WellFormed(Update(f, m, op)) && Admitted(f, Update(f, m, op))
  {
    hide WellFormed, Admitted, InsertRoutes, DeleteRoutes;
    match op
    case Insert(r) => Ledger.InsertsAdmitted(f, m, [Announced(r)]); OneInsert(f, m, Announced(r));
    case InsertBatch(rs) => Ledger.InsertsAdmitted(f, m, Announcements(rs));
    case Delete(w) => Ledger.DeletesAdmitted(f, m, [w]); OneDelete(f, m, w);
    case DeleteBatch(ws) => Ledger.DeletesAdmitted(f, m, ws);
    case MarkStale => Ledger.AfterAdmitted(f, m, Ledger.MarkStale);
    case FlushStale => Ledger.AfterAdmitted(f, m, Ledger.FlushStale);
    case Reset => EmptyInOrder(f);
    case _ =>
  }

  lemma OneInsert(f: Family, m: Store, r: Announcement)
    ensures InsertRoutes(f, m, [r]) == InsertRoute(f, m, r)
  {
    assert [r][..0] == [];
  }

  lemma OneDelete(f: Family, m: Store, w: Withdrawal)
    ensures DeleteRoutes(f, m, [w]) == DeleteRoute(f, m, w)
  {
    assert [w][..0] == [];
  }

  lemma EmptyInOrder(f: Family)
    ensures WellFormed<AttrContent>(map[]) && Admitted(f, map[])
  {
  }

  lemma {:induction false} RunKeepsOrder(f: Family, ops: seq<Operation>)
    ensures var m := UpdateAll(f, map[], ops); WellFormed(m) && Admitted(f, m)
  {
    if ops == [] {
      EmptyInOrder(f);
    } else {
      RunKeepsOrder(f, ops[..|ops| - 1]);
      UpdateKeepsOrder(f, UpdateAll(f, map[], ops[..|ops| - 1]), ops[|ops| - 1]);
    }
  }

  /** The prefixes stored after a session. */
  ghost predicate StoredAfterRun(f: Family, ops: seq<Operation>, p: Prefix)
  {
    StoredPrefix(f, UpdateAll(f, map[], ops), p)
  }

  /** After any session from an empty RIB a search finds the longest stored prefix containing the
      address, or none contains it; and the enumeration lists exactly what is stored, in order, with
      as many entries as the count. */
  lemma SessionAnswers(f: Family, ops: seq<Operation>, ip: Addr)
    requires ip.family == f
    ensures var a := Respond(f, UpdateAll(f, map[], ops), Search(ip));
      && a.One?
      && (a.route.None? <==> forall p :: StoredAfterRun(f, ops, p) ==> !Contains(p, ip))
      && (a.route.Some? ==>
            && StoredAfterRun(f, ops, a.route.value.prefix) && Contains(a.route.value.prefix, ip)
            && forall p :: StoredAfterRun(f, ops, p) && Contains(p, ip) ==> p.bits <= a.route.value.prefix.bits)
    ensures var l := Respond(f, UpdateAll(f, map[], ops), AllPrefixes);
      && l.Prefixes?
      && Respond(f, UpdateAll(f, map[], ops), Count) == Number(|l.prefixes|)
      && (forall p :: p in l.prefixes <==> StoredAfterRun(f, ops, p))
      && forall i, j :: 0 <= i < j < |l.prefixes| ==>
           l.prefixes[i].addr.family == l.prefixes[j].addr.family && Before(l.prefixes[i], l.prefixes[j])
  {
    RunKeepsOrder(f, ops);
    var m := UpdateAll(f, map[], ops);
    hide WellFormed, Admitted, StoredPrefix, Contains, Optimum, Before, UpdateAll, Reference.Search,
        Reference.AllPrefixes;
    SearchMisses(f, m, ip);
    LongestPrefixMatch(f, m, ip);
    EnumerationRoundTrip(f, m);
  }

  /** A link-local address: the IPv6 search says no route, the search for all paths panics. */
  lemma LinkLocalPanics(m: Store)
    requires Admitted(V6, m)
    ensures var ip := RawAddr.Addr(V6, [0xFE, 0x80] + seq(14, _ => 0));
      Respond(V6, m, Search(ip)) == One(None) && Respond(V6, m, AllPathsSearch(ip)) == Panic
  {
    var a: seq<bv8> := [0xFE, 0x80] + seq(14, _ => 0);
    forall len: nat | 8 <= len <= V6.MaxLen() ensures KeyOf(a, len) !in m {
      assert OctetOfKey(KeyOf(a, len)) == a[0] == 0xFE;
    }
  }

  // ---- Graceful restart in a session --------------------------------------------------------------------

  /** The single announcements and withdrawals an operation amounts to. */
  function EditsOf(op: Operation): seq<Restart.Edit>
  {
    match op
    case Insert(r) => [Restart.Announce(Announced(r))]
    case InsertBatch(rs) => seq(|rs|, i requires 0 <= i < |rs| => Restart.Announce(Announced(rs[i])))
    case Delete(w) => [Restart.Withdraw(w)]
    case DeleteBatch(ws) => seq(|ws|, i requires 0 <= i < |ws| => Restart.Withdraw(ws[i]))
    case _ => []
  }

  function AllEdits(ops: seq<Operation>): seq<Restart.Edit>
  {
    if ops == [] then [] else AllEdits(ops[..|ops| - 1]) + EditsOf(ops[|ops| - 1])
  }

  predicate Resyncs(op: Operation)
  {
    !op.MarkStale? && !op.FlushStale? && !op.Reset?
  }

  lemma {:induction false} InsertsAsEdits(f: Family, m: Store, rs: seq<Route<RouteAttributes?>>)
    ensures Restart.ApplyAll(f, m, EditsOf(InsertBatch(rs))) == InsertRoutes(f, m, Announcements(rs))
  {
    if rs != [] {
      var n := |rs| - 1;
      InsertsAsEdits(f, m, rs[..n]);
      assert EditsOf(InsertBatch(rs))[..n] == EditsOf(InsertBatch(rs[..n]));
      assert Announcements(rs)[..n] == Announcements(rs[..n]);
    }
  }

  lemma {:induction false} DeletesAsEdits(f: Family, m: Store, ws: seq<Withdrawal>)
    ensures Restart.ApplyAll(f, m, EditsOf(DeleteBatch(ws))) == DeleteRoutes(f, m, ws)
  {
    if ws != [] {
      var n := |ws| - 1;
      DeletesAsEdits(f, m, ws[..n]);
      assert EditsOf(DeleteBatch(ws))[..n] == EditsOf(DeleteBatch(ws[..n]));
    }
  }

  lemma UpdateAsEdits(f: Family, m: Store, op: Operation)
    requires Resyncs(op)
    ensures Update(f, m, op) == Restart.ApplyAll(f, m, EditsOf(op))
  {
    hide InsertRoute, DeleteRoute, InsertRoutes, DeleteRoutes;
    match op
    case InsertBatch(rs) => InsertsAsEdits(f, m, rs);
    case DeleteBatch(ws) => DeletesAsEdits(f, m, ws);
    case Insert(r) => assert [Restart.Announce(Announced(r))][..0] == [];
    case Delete(w) => assert [Restart.Withdraw(w)][..0] == [];
    case _ =>
  }

  lemma {:induction false} ApplyConcat(f: Family, m: Store, a: seq<Restart.Edit>, b: seq<Restart.Edit>)
    ensures Restart.ApplyAll(f, m, a + b) == Restart.ApplyAll(f, Restart.ApplyAll(f, m, a), b)
  {
    if b == [] {
      assert a + b == a;
    } else {
      assert (a + b)[..|a + b| - 1] == a + b[..|b| - 1];
      ApplyConcat(f, m, a, b[..|b| - 1]);
    }
  }

  lemma {:induction false} RunAsEdits(f: Family, m: Store, ops: seq<Operation>)
    requires forall op :: op in ops ==> Resyncs(op)
    ensures UpdateAll(f, m, ops) == Restart.ApplyAll(f, m, AllEdits(ops))
  {
    if ops != [] {
      var n := |ops| - 1;
      assert ops[n] in ops;
      RunAsEdits(f, m, ops[..n]);
      UpdateAsEdits(f, UpdateAll(f, m, ops[..n]), ops[n]);
      ApplyConcat(f, m, AllEdits(ops[..n]), EditsOf(ops[n]));
    }
  }

  lemma RestartSteps(f: Family, m: Store, n: Store, scratch: Store, ip: Addr)
    ensures Update(f, m, MarkStale) == RibModel.MarkAllStale(m) && Update(f, n, FlushStale) == DropStale(n)
    ensures Respond(f, DropStale(n), Search(ip)) == One(Reference.Search(f, DropStale(n), ip))
    ensures Respond(f, scratch, Search(ip)) == One(Reference.Search(f, scratch, ip))
  {
  }

  /** Graceful restart over sessions: mark everything stale, let the peer send any single or batched
      updates, with any queries in between, and flush. The RIB then stores under every prefix the
      paths the same updates build from nothing, and every search answers alike. */
  lemma RestartSession(f: Family, m: Store, ops: seq<Operation>, ip: Addr)
    requires WellFormed(m) && forall op :: op in ops ==> Resyncs(op)
    ensures var restarted := Update(f, UpdateAll(f, Update(f, m, MarkStale), ops), FlushStale);
      var scratch := UpdateAll(f, map[], ops);
      && restarted.Keys == scratch.Keys
      && (forall k :: k in restarted ==> multiset(restarted[k]) == multiset(scratch[k]))
      && Respond(f, restarted, Search(ip)) == Respond(f, scratch, Search(ip))
  {
    hide *;
    RestartSteps(f, m, UpdateAll(f, RibModel.MarkAllStale(m), ops), UpdateAll(f, map[], ops), ip);
    RunAsEdits(f, RibModel.MarkAllStale(m), ops);
    RunAsEdits(f, map[], ops);
    Restart.RestartPaths(f, m, AllEdits(ops));
    Restart.RestartSearch(f, m, AllEdits(ops), ip);
  }
}
