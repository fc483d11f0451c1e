# A verified model of the routing table

The repository is an in-memory BGP routing information base (RIB). For each address family it keeps a
binary trie whose first eight levels are replaced by an array indexed by the first octet; several paths
per prefix, told apart by path ID; stale marks for graceful restart; and one table of attribute sets,
shared by any number of RIBs, that stores each distinct set once and counts references to it.

This project models that structure as it is built, with heap nodes, parent pointers and counters
updated in place, and proves that it behaves as a plain map from prefix to an ordered list of paths. It
also proves what the sharing of attributes relies on when many threads work at once.

## How the project is put together

- **Values.** `Octets`, `Addressing`: the bit walk over an address and the reconstruction of an address
  from a trie position, for both families through one `Family` parameter: 256 array entries, offset 0,
  depth 24 for IPv4; 32 entries, offset 0x20, depth 48 for IPv6. `PathSeq`: the path slots of a node as
  a sequence. `RibModel`: a RIB as a map from trie position to path sequence, generic in how attributes
  are represented. `AttrModel`: the attribute table as a value, generic in what a pointer is.
  `Selection`: best-path selection. `Enumeration`, `Sweeps`, `Sums`: orders and sums over the trie.
- **Heap.** `Attributes`, `AttrTables`, `Tallies`, `Nodes`, `Ribs` (with `Tries` for the invariants and
  `Walks` for the walks) are classes with the fields and the steps of the source. A ghost map from
  position to node flattens the pointer structure; every invariant speaks of one node and its
  neighbours. `Queries` and `Listings` hold the read-only operations.
- **What callers see.** `Reference`: every operation and its results on a map of attribute content, with
  no table, trie or counter. `Runs`: any sequence of operations on the heap answers as the reference
  does. `Laws`: each operation in its callers' terms, about prefixes and routes, with criteria and
  numbers written out instead of the definitions that compute them. `Restart`, `Ledger`, `Shapes`,
  `Histories`: theorems about whole runs.
- **Sharing.** `Protocol`: any number of threads and RIBs over one table. Taking and dropping a RIB lock
  or the table lock is a step of its own, and so is each edit that others can notice. `Interleaving`:
  conservation of references over every run, no leak, no premature purge. `Progress`: the two kinds of
  locks never deadlock, and every operation ends after a bounded number of its own steps.
  `Linearization`: each RIB evolves, and answers every update and every read, as if its operations ran
  one at a time on a private map. The steps are the very functions the heap methods are proved to
  compute.

Methods that touch the table take a ghost multiset `others`: the references the table holds for anyone
but this RIB. It may be anything, so what is proved of one RIB holds next to any other holders.

Where code and documentation disagree the model follows the code. `AttributeCount` and `Len` count hash
buckets, not attribute sets (`AttrModel.LenCountsHashes` says exactly when the two differ). The hash
mixes whole words, so it is not FNV-1a over octets; nothing proved depends on which function it is. The
path map described in the top-level README and in `doc/api.html` belongs to an older design.
`AllPathsSearch` of the IPv6 RIB indexes its array without the range check `Search` makes; the model
gives the panic as an outcome and says for which addresses it happens.

IPv6 methods are the same code with other constants, so most rows below cite the IPv4 file.

## Model

| member | source | states |
|---|---|---|
| Octets.IntToBinBitwise | utils.go:20-31 | the eight bits of an octet, most significant first |
| Octets.IsValidV4Meaning | utils.go:5-16 | the 256-bit filter admits exactly first octets 1-223 except 10 and 127 |
| Addressing.SlotOctet | ipv6.go:783-822 | array index and first octet determine each other |
| Addressing.OctetSlot | ipv4.go:777-793 | every first octet insert admits lies below the scan limit of the enumerations, so the scans to 223 miss nothing |
| Addressing.KeyOfAddrOf | ipv4.go:796-817 | walking the address a walker has rebuilt leads back to the node it stands at |
| Addressing.AddrOfKeyOf | ipv4.go:175-249 | the address rebuilt for the node an insert reached is the inserted one with its host bits cleared |
| Addressing.SameKey | ipv4.go:222-247 | two addresses share a node at a depth exactly when they agree up to host bits: unmasked prefixes are safe |
| Addressing.PrefixRoundTrip | ipv4.go:796-817 | stored positions and reported prefixes are inverse to each other up to host bits |
| PathSeq.EditsKeepIDsUnique | node.go:156-246 | path IDs in a node stay unique under every edit |
| PathSeq.SetPathReplaces | node.go:194-246 | a replacement is reported exactly when the path count stays; what goes is the same ID or else the first stale path, never a fresh path of another ID |
| PathSeq.DeletePathCount | node.go:156-192 | a delete removes one path exactly when the ID is present, and otherwise nothing |
| PathSeq.DeletePathExact | node.go:156-192 | the path with the ID is taken out, stale or not, its attributes are handed back, and what was before and after it stays in order |
| PathSeq.DeletePathMembers | node.go:156-192 | a path remains if and only if its ID is another one |
| PathSeq.SetPathExact | node.go:194-246 | the three stages with contents and order: the path of the ID replaced where it stands, else the first stale one, else appended |
| PathSeq.MarkStaleExact | ipv4.go:61-73 | attributes, IDs and order stay, every path becomes stale |
| PathSeq.FreshExact | ipv4.go:399-414 | exactly the paths that are not stale remain, in order |
| PathSeq.SetPathView | node.go:194-246 | seen through its fresh paths a node is a map from ID to attributes, and setting a path is a map update even when a stale slot is reused |
| PathSeq.DeletePathView | node.go:156-192 | deleting a path is a map removal |
| PathSeq.MarkStaleView | ipv4.go:61-73 | marking empties the fresh view |
| PathSeq.FreshView | ipv4.go:401-414 | flushing stale paths leaves the fresh view alone |
| PathSeq.SameViewSamePaths | node.go:11-22 | without stale paths the fresh view determines the paths up to order |
| PathSeq.NoDoubling | node.go:211-245 | n stale paths followed by m announcements with distinct IDs leave max(n, m) paths, m of them fresh |
| PathSeq.MapEdits | node.go:156-246 | the slot policy never looks at attributes, so every edit commutes with a change of their representation |
| Nodes.Node.SetPath | node.go:194-246 | the three stages in place (same ID, first stale slot, append): the slots become the specified sequence, with the displaced attributes returned |
| Nodes.Node.DeletePath | node.go:156-192 | removal in place with promotion of the first overflow path keeps the order of the rest |
| Nodes.Node.PathsCount | node.go:67-72 | the number of stored paths |
| Nodes.Node.FirstStalePathID | node.go:141-154 | the ID of the first stale path, inline before overflow |
| Nodes.Node.IsPathStale | node.go:45-58 | the stale mark of the path with this ID |
| Nodes.Node.BestPathWithID | node.go:74-123 | the attributes and ID of the best path; none exactly when the node has no path |
| Nodes.Node.MarkStale | ipv4.go:61-67 | every slot of the node marked, nothing else changed |
| Selection.BestIsOptimum | node.go:74-123 | with unique IDs the scan finds the one path that beats every other (preference with 0 as 100, then shorter AS path, then lower ID) |
| Selection.BestCriteria | node.go:74-123 | the criteria written out: no path has a higher preference (0 counts as 100), none of the same preference a shorter AS path, none equal in both a lower ID |
| Selection.BestIgnoresOrder | node.go:74-123 | the best path does not depend on the order of the slots |
| Selection.SelectBest | types.go:153-201 | the first candidate that nothing beats; routes without attributes lose to all others |
| Selection.SelectedCriteria | types.go:153-201 | the same criteria for the route selected, ties going to the first candidate; without attributes only if no candidate has any |
| Selection.OrderIndependence | types.go:153-201 | the choice is the same for every order of the candidates if and only if one distinct route is unbeaten |
| Selection.DistinctIDsOrderIndependent | types.go:153-201 | distinct IDs and one route with attributes are enough for that |
| Selection.AllNilDependsOnOrder | types.go:158-165 | a concrete pair without attributes for which the order shows |
| Selection.SelectionsAgree | types.go:153-201 | selecting over all routes of a prefix picks the node's own best path |
| Attributes.HashAttributes | hash.go:35-71 | the hash is a function of content alone: equal content, equal hash |
| Attributes.HashIsRounds | hash.go:35-71 | the hash is one round per word: each list after its length, the preference last |
| Attributes.EmptyHash | hash.go:39-40 | the number the empty set hashes to, which fixes seed and prime |
| Attributes.WordsDetermine | hash.go:42-70 | the words hashed determine the content: nothing that equality compares is left out, and the lengths keep lists apart |
| Attributes.OneWordApart | hash.go:42-70 | a round loses nothing, so contents that differ in one word never collide |
| Attributes.EqualAttributes | hash.go:73-108 | true exactly for the same pointer or equal content |
| Attributes.HasCommunity | types.go:70-80 | membership, false without attributes |
| Attributes.HasLargeCommunity | types.go:82-92 | membership, false without attributes |
| Attributes.OriginIsLast | types.go:66-68 | the origin is the last AS of a path; an empty path has none |
| Attributes.HoldsMeets | types.go:66-122 | each of the four queries tests what it says, position by position |
| Attributes.RenderingReadsBack | types.go:54-63 | the rendered AS path reads back as the same numbers in the same order |
| Attributes.RenderingJoins | types.go:54-63 | one decimal number per AS, single spaces between |
| Attributes.Matcher.Match | types.go:97-122 | memo and last-pointer cache never change a verdict: the answer is direct evaluation on content |
| AttrModel.EmptyIsConsistent | hash.go:21-25 | a new table is consistent and accounts for no reference |
| AttrModel.FindComplete | hash.go:117-123 | scanning one bucket finds content that is anywhere in the table, collisions included |
| AttrModel.GetOrInsertCorrect | hash.go:110-149 | the pointer handed out is live, has the content asked for and one more reference; the table stays free of duplicates with exact statistics; every other entry keeps its content |
| AttrModel.LenCountsHashes | hash.go:27-32 | the bucket count falls short of the number of attribute sets exactly when two of them collide |
| AttrModel.NoLeak | hash.go:151-164 | when no reference is held the table has no bucket, no entry and no accounted byte |
| AttrModel.BytesExact | hash.go:145-160 | the byte statistic is four bytes per AS number and community, twelve per large community, and the rendered paths, over the entries present |
| AttrModel.ReleaseStep | hash.go:166-177 | releasing a held reference never underflows and keeps the counts exact |
| AttrModel.ReleaseIsDrop | hash.go:166-177 | a single release is the removal of one reference from the books |
| AttrModel.DropIsConsistent | hash.go:185-216 | any bulk removal of references keeps buckets, canonicity and statistics in order |
| AttrModel.DropCounts | hash.go:185-216 | what remains held elsewhere stays live with its exact count |
| AttrModel.DropTwice | hash.go:204-213 | two portions, split anywhere, amount to one: chunk boundaries do not matter |
| AttrModel.BatchStep | hash.go:196-203 | the state after part of a batch depends on which entries are done, not on their order |
| AttrModel.HonestBatch | hash.go:179-201 | a tally of held references is never clamped and takes exactly the references tallied |
| AttrModel.BatchOutcome | hash.go:196-203 | entry by entry: a count of at least the entry's own removes it, a smaller one is subtracted, an entry not counted or counted zero keeps its references |
| AttrModel.ReleaseEachIsDrop | hash.go:166-177 | releasing a sequence one by one drops exactly its multiset |
| AttrModel.BatchEqualsSingles | hash.go:185-216 | the batched release gives the same table as one release per occurrence |
| AttrTables.AttrTable.GetOrInsert | hash.go:110-149 | the heap table makes the specified step; a new entry is a fresh copy, nothing else becomes live |
| AttrTables.AttrTable.RemoveLocked | hash.go:151-164 | an entry leaves its bucket, the bucket leaves when empty, both statistics move by that entry; an entry not in the table is left alone |
| AttrTables.AttrTable.Release | hash.go:166-177 | one reference less, the entry gone at zero, absent attributes ignored |
| AttrTables.AttrTable.ReleaseN | hash.go:185-216 | for every order of the map the table loses exactly the clamped counts; entries no longer in it are ignored |
| AttrTables.AttrTable.Len | hash.go:27-32 | the number of buckets |
| Tallies.AttrTally.Add | hash.go:247-283 | map and pending run together count each attribute as often as it was added |
| Tallies.AttrTally.Release | hash.go:258-268 | flushing releases exactly what was added and leaves every other reference alone |
| RibModel.EditsKeepWellFormed | ipv4.go:175-422 | no empty positions and unique IDs after every kind of edit |
| RibModel.InsertConserves | ipv4.go:193-216 | an insert takes one reference and gives back exactly the displaced one |
| RibModel.DeleteConserves | ipv4.go:289-296 | a delete gives back exactly the deleted reference |
| RibModel.MarkConserves | ipv4.go:61-73 | marking moves no reference |
| RibModel.PathTotal | ipv4.go:22 | references are counted once per stored path |
| RibModel.LengthsPartition | ipv4.go:21-24 | the counts per length add up to the number of prefixes |
| RibModel.ViewEdits | ipv4.go:175-351 | edits of pointers are edits of content: deduplication is invisible |
| RibModel.ViewDrop | ipv4.go:387-422 | the same for the stale flush |
| Ribs.Rib.constructor | ipv4.go:34-43 | a new RIB is empty and in order |
| Ribs.Rib.FindOrCreate | ipv4.go:195-235 | the walk reaches the node of the masked prefix, creating what is missing and disturbing no node in place |
| Ribs.Rib.StorePath | ipv4.go:203-216 | slot and counters together after the walk, new prefixes reported |
| Ribs.Rib.InsertUnlocked | ipv4.go:175-249 | reference, walk, slot, release: the content becomes the specified one, all counters and the table stay exact, rejected prefixes change nothing |
| Ribs.Rib.Insert | ipv4.go:149-156 | the reference insert, no effect for the other family |
| Ribs.Rib.InsertBatch | ipv4.go:160-173 | the reference batch and exactly the prefixes that got their first path, as the caller wrote them, with room for one more reference before each stored route |
| Ribs.Rib.Locate | ipv4.go:304-311 | the node of a prefix, or none if any bit of the way is missing |
| Ribs.Rib.DeleteNode | node.go:252-270 | pruning removes only empty leaves, each counted once, and leaves no dead node below the array entry |
| Ribs.Rib.CleanRoot | ipv4.go:327-333 | an array entry without path and children is freed |
| Ribs.Rib.DeleteUnlocked | ipv4.go:278-351 | the specified removal with counters, pruning and table exact; unknown prefixes and IDs change nothing |
| Ribs.Rib.Delete | ipv4.go:252-259 | the reference delete, no effect for the other family |
| Ribs.Rib.DeleteBatch | ipv4.go:263-276 | the reference batch and exactly the prefixes that lost their last path |
| Ribs.Rib.MarkAllStale | ipv4.go:46-59 | every stored path is marked; the early return is right because the path count is exact |
| Ribs.Rib.DropSlots | ipv4.go:399-414 | the per-node loop ends, keeps the fresh paths in order and hands each dropped reference to the tally |
| Ribs.Rib.DeleteStaleFromNode | ipv4.go:387-422 | the recursive sweep is exact although pruning below may remove the node whose frame is active |
| Ribs.Rib.DeleteStaleRoutes | ipv4.go:355-383 | survivors are exactly the fresh paths in order; each prefix that was all stale is reported once; references go only after the sweep |
| Ribs.Rib.Reset | ipv4.go:77-94 | the RIB is empty and everyone else's references are untouched |
| Ribs.Rib.ReleaseTree | hash.go:220-236 | a detached trie gives back exactly the references it held |
| Ribs.CollectNodeAttrs | hash.go:287-300 | the walk tallies each reference below a node exactly once |
| Tries.CountersAfter | ipv4.go:203-216 | rewriting one position moves every counter by what changed there |
| Tries.NoPathsNoContent | ipv4.go:50-52 | a path count of zero means nothing is stored |
| Sweeps.DropSubtree | ipv4.go:387-422 | left subtree, right subtree, then the top amount to the sweep of the whole subtree |
| Sweeps.SweepStep | ipv4.go:400-413 | deleting the first stale path leaves the fresh ones as they are and frees one reference |
| Sweeps.RemovedSubtree | ipv4.go:387-422 | the order in which a subtree sweep reports emptied prefixes |
| Enumeration.PreOrderRootsInOrder | ipv4.go:777-817 | the walk lists prefixes strictly by address, then length |
| Enumeration.PostOrderRootsDistinct | ipv4.go:355-422 | no prefix is reported twice by a flush |
| Enumeration.PostOrderRootsInSweepOrder | ipv4.go:386-422 | a sweep leaves what is below a node before the node, and nodes side by side in address order |
| Shapes.NodeCountIsExact | ipv4.go:23 | the node counter is the number of nodes the pointers reach, each at one position |
| Shapes.NodeIffNeeded | node.go:252-270 | a node exists exactly on the way to a stored prefix: none is ever left dead |
| Shapes.ShapeForgetsHistory | node.go:252-270 | RIBs that store the same prefixes have the same node positions, node count, prefix count and per-length counts, whatever happened before |
| Shapes.SubnetsAddUp | ipv4.go:135-146 | the distribution over lengths adds up to the prefix count |
| Queries.Search | ipv4.go:425-482 | answers as the reference search, with a pointer to stored attributes |
| Queries.AllPathsSearch | ipv6.go:490-533 | all routes of the longest match; the panic happens exactly for addresses outside 2000::/3 |
| Queries.Lookup | ipv4.go:532-588 | the exact match of the reference |
| Queries.AllPaths | ipv4.go:591-629 | all routes of a prefix in stored order |
| Queries.GetSubnets | ipv4.go:135-146 | for every length the number of stored prefixes of that length |
| Queries.Count | ipv4.go:110-117 | the number of stored prefixes |
| Queries.PathCount | ipv4.go:125-132 | the number of stored paths |
| Listings.CollectPrefixes | ipv4.go:796-817 | the recursive walk lists the stored prefixes below a node in order |
| Listings.AllPrefixes | ipv4.go:777-794 | the enumeration of the reference |
| Listings.CollectMatching | ipv4.go:720-750 | the recursive walk lists the matching paths below a node |
| Listings.PrefixesMatching | ipv4.go:706-774 | every attribute query equals filtering all paths of all prefixes in enumeration order |
| Reference.SearchMisses | ipv4.go:425-482 | a search is empty exactly when no stored prefix contains the address |
| Reference.LongestPrefixMatch | ipv4.go:425-482 | a hit is the longest stored prefix containing the address, with its best path and true stale mark |
| Reference.SearchIsLongestLookup | ipv4.go:425-588 | a search is the exact lookup at the greatest length for which there is one |
| Reference.SearchIsSelectBest | ipv4.go:484-529 | a search is the selection over all paths of the longest match |
| Reference.EnumerationInOrder | ipv4.go:777-817 | strictly ordered by address then length, as many as stored |
| Reference.EnumerationRoundTrip | ipv4.go:777-817 | in addition exactly the stored prefixes |
| Laws.StoresExactly | ipv4.go:175-188 | the first octets and lengths stored, in numbers, for both families |
| Laws.OthersIgnored | ipv4.go:175-188 | whatever else is announced changes nothing |
| Laws.ConcernsExactly | ipv4.go:278-284 | the lengths withdrawals and exact queries look at, in numbers |
| Laws.AnnounceExact | ipv4.go:193-216 | what an announcement does at its prefix, path by path, and that it does nothing at any other |
| Laws.AnnouncedIsThere | ipv4.go:149-156 | afterwards callers see the route announced, not stale, and every other route that is not stale, and nothing else is new |
| Laws.CallersRouteIsThere | hash.go:110-149 | with the caller's attributes field by field; absent ones are stored as an empty set |
| Laws.WithdrawExact | ipv4.go:278-351 | the path named goes, stale or not, the others keep their order, no other prefix changes |
| Laws.WithdrawnIsGone | ipv4.go:252-259 | afterwards callers see exactly the routes they saw before except the one named, under any spelling of the prefix |
| Laws.UnknownIgnored | ipv4.go:289-311 | a withdrawal of a path that is not there changes nothing |
| Laws.AnnouncementsCompose | ipv4.go:160-173 | a batch is its elements one after the other, in what it stores and in what it reports |
| Laws.AnnouncementAlone | ipv4.go:166-171 | an announcement is reported, as spelled by the caller, if and only if its prefix had no route before and has one after |
| Laws.WithdrawalsCompose | ipv4.go:263-276 | the same for batches of withdrawals |
| Laws.WithdrawalAlone | ipv4.go:263-276 | a withdrawal is reported if and only if its prefix had a route before and has none after |
| Laws.MarkedExactly | ipv4.go:46-73 | all routes of every prefix as before, in order, except that they are stale |
| Laws.FlushedExactly | ipv4.go:355-414 | of the routes of every prefix exactly those that are not stale, in order |
| Laws.FlushReportExact | ipv4.go:355-422 | the flush reports exactly the stored prefixes whose routes are all stale |
| Laws.FlushReportOrder | ipv4.go:386-422 | a prefix is reported after the ones inside it, and prefixes that do not nest by address |
| Laws.LookupExact | ipv4.go:531-588 | an exact lookup answers if and only if the prefix is stored, whatever longer or shorter prefixes are, with the best of its paths |
| Laws.LookupCriteria | ipv4.go:531-588 | no route of the prefix does better by the criteria written out |
| Laws.AllPathsExact | ipv4.go:590-645 | one route per stored path, in stored order, under the masked prefix; none if and only if the prefix is not stored |
| Laws.AllPathsSearchExact | ipv4.go:484-529 | all paths of the prefix the search names, in stored order; nothing when the search is empty |
| Laws.SearchCriteria | ipv4.go:425-482 | the search answers with one of those routes, and none of them does better by the criteria written out |
| Laws.MatchingExact | ipv4.go:703-774 | a query lists, in the order of the enumeration, the routes of each prefix that pass the test, in stored order |
| Laws.MatchingMembers | ipv4.go:703-774 | a route is listed if and only if its prefix is enumerated, it is one of its routes, and its attributes pass the test |
| Laws.SubnetsExact | ipv4.go:135-146 | the count of a length is the number of enumerated prefixes of that length |
| Laws.PathCountExact | ipv4.go:125-132 | the path count is the number of routes listed for all prefixes together |
| Restart.GracefulRestart | ipv4.go:46-59 | after marking, any announcements and withdrawals, and the flush, each prefix and ID has what the same updates give from nothing |
| Restart.RestartPaths | ipv4.go:355-383 | hence the same prefixes with the same paths up to order |
| Restart.RestartSearch | ipv4.go:425-482 | hence the same answer to every search |
| Restart.ResyncCounts | ipv4.go:210-215 | re-announcing m paths over n stale ones raises the path count by max(0, m - n) |
| Ledger.UpdateReplay | ipv4.go:158-173 | replaying what one update reports never adds a present prefix nor removes an absent one |
| Ledger.LedgerFollows | ipv4.go:261-276 | over every run the replayed ledger is the set of stored prefixes |
| Ledger.LiteralReport | ipv4.go:166-171 | the report repeats the caller's spelling, which names a stored prefix exactly when its host bits are clear |
| Runs.RunAll | fuzz_test.go:132-200 | every sequence of operations, of any length, from any valid state and beside any other holders, answers call by call as the reference and leaves the same content; each route about to be stored needs room for one more reference at that moment |
| Runs.Session | fuzz_test.go:132-200 | the same from a new RIB |
| Runs.SessionAnswers | fuzz_test.go:102-130 | after any session searches are longest matches and the enumeration is exact, ordered and as long as the count |
| Runs.LinkLocalPanics | ipv6.go:490-505 | a concrete link-local address for which the search says no route and the search for all paths panics |
| Runs.RestartSession | ipv4.go:46-59 | graceful restart for sessions of single and batched updates with queries in between |
| Histories.PathLife | ipv4.go:46-73 | over any history of announcements, withdrawals, marks, flushes and resets the events of one prefix and ID alone decide which route that is not stale shows for it; a stale one shows only between a mark and the next announcement, withdrawal or flush |
| Histories.SessionPaths | fuzz_test.go:132-200 | the same for what any session on a RIB answers, with batches counted by their elements |
| Protocol.InitInv | hash.go:21-25 | the initial state satisfies the invariant |
| Interleaving.StepKeepsInv | hash.go:110-216 | any step of any thread keeps all counts exact and changes no live content |
| Interleaving.RunKeepsInv | ipv4.go:87-94 | conservation over every interleaving of inserts, deletes, flushes, resets and chunked releases |
| Interleaving.StoredIsLive | ipv4.go:378-382 | whatever any RIB stores is in the table with enough counts, and no release ever hit a dead entry, an underflow or the clamp |
| Interleaving.NothingLeaks | hash.go:151-164 | once all RIBs are empty and nothing is pending the table is empty |
| Progress.LockOrder | ipv4.go:87-90 | locks are taken in the order RIB, then table: the holder of the table lock waits for nothing, a thread waiting for a RIB holds nothing, and one releasing references after its RIB lock is gone holds no RIB |
| Progress.NoDeadlock | ipv4.go:87-92 | from any thread in the middle of an operation at most two waits for locks lead to a thread that can step |
| Progress.NeverStuck | ipv4.go:87-92 | the same in every state any run reaches |
| Progress.OwnStepsDescend | hash.go:179-216 | every step of an operation lowers the bound on what it has left to do |
| Progress.OperationsEnd | hash.go:179-216 | over any run a thread that takes up no new work takes no more steps than that bound, however the others interleave |
| Linearization.EndSweepMatches | ipv4.go:355-383 | a flush done path by path, in any order, leaves what was fresh when it began and reports exactly the positions that had only stale paths |
| Linearization.StepRefines | ipv4.go:87-93 | one step changes the RIB it has an effect on, and answers its caller, as the reference does; no other RIB can tell |
| Linearization.RunRefines | ipv4.go:378-382 | every interleaving leaves each RIB as a sequential run of the operations on it leaves a private map |
| Linearization.RunAnswers | ipv4.go:378-382 | every answer given in an interleaving, to an update or a read, is the answer of that sequential run |

## Left out

- AttrTables.AttrTable.ReleaseN: runs under one lock without yielding between chunks; the interleavings a chunked release allows are covered by `Protocol`, where a table section releases any number of entries before the lock is dropped and taken again. Null keys in the map do not occur.
- Interleaving.RunKeepsInv: the references held at one time are assumed to stay below 2^32 in number, the width of the count; the assumption stands in the step that takes a reference, in `Progress.NoDeadlock`, and as a precondition of the heap methods that insert, where it is asked for just before each route that is stored. The length of a run or of a batch is not bounded.
- Attributes.Matcher.Match: a regular expression is an uninterpreted predicate on the rendered AS path.
- Runs.RunAll: operations of one RIB in sequence; the interleaving with other threads is the subject of `Protocol`.
- Read locks: in `Protocol` a query is one step, possible when no thread owns the RIB. The shared mode of the lock, in which several queries overlap, is not a state of its own.
- Go scheduling, fairness and the internals of the read-write mutex: some thread can always step and every operation needs boundedly many steps, but that each thread gets its turn is not claimed.
- The flag bits of a node are two booleans, the two child slots two fields, and the overflow slice a sequence without capacity or aliasing.
- A nil and an empty attribute slice are one; copies keep the distinction in the source, where nothing depends on it.
- The unsigned 64-bit statistics and node counter are integers; they are proved to stay exact, so never to wrap.
- `netip` parsing, zones, IPv4-mapped and invalid addresses: an address is a family and its octets, a prefix length any integer.
- A RIB that was not built by its constructor, which the getters tolerate, and a nil table.
- A released entry may be allocated again at once in `Protocol`; nobody holds a pointer to it by then.
- `GetStats`, `MemoryUsage`, `formatBytes` and struct sizes, `PrintRib`, `StartLogging`, `String`, `router.go` and log messages: formatting and input/output only.
