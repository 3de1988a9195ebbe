# repcrecdb in Dafny

A model of the core of repcrecdb, a simulator of a replicated, partitioned
database. The database runs strict two-phase locking and the
available-copies protocol over ten sites and twenty integer variables
x1..x20. Even variables are replicated at every site. An odd variable x_i
lives only at its home site 1 + (i mod 10).

The model has five modules:

- `Common` holds optional values (the source's `null`) and transaction names.
- `Site` models one site (DataManager.java).
  - The lock entry, the three grant rules of `checkLock` and the blocking
    set of `genBlockTrancSet` are value-level functions.
  - Each mutator is a pure function on a whole `SiteState`.
  - The class `Site.DataManager` keeps the same tables as fields and updates
    them in place. Each of its methods is proved to leave the site in the
    state that the pure function describes.
- `Deadlock` models the wait-for graph (WaitForGraph.java).
  - Edge insertion and node removal are methods on a class.
  - The recursive depth-first search threads the visited and searched sets,
    the cycle list and the recording switch, as the source does.
  - The search is proved sound: a reported list is a cycle with no repeats.
  - It is also proved complete: no report means the graph has no cycle.
- `Txn` models the transaction record (Transaction.java) in the shape the
  coordinator uses.
- `Manager` models the coordinator (TransactionManager.java).
  - It has the site status table, the transaction registry, the buffer of
    parsed instructions, the tick counter and the round-robin cursor.
  - It has every instruction, and the tick loop of `run`.
  - Its invariant `Manager.Inv` says that every buffered write still holds
    its write lock at each of its sites that has not failed since the
    transaction first accessed it.
  - This invariant is why every site write at commit succeeds (the `assert`
    in `end`). Every coordinator method preserves it.

## Model

| member | source | states |
|---|---|---|
| Site.CatalogPlacement | src/main/java/repcrecdb/DataManager.java:74-78 | an even variable is hosted at every site; an odd one at exactly its home site 1 + (i mod 10) |
| Site.InitialState | src/main/java/repcrecdb/DataManager.java:67-87 | a new site hosts exactly its catalog variables, each with value 10·i, with no locks, markers or snapshots; exactly the hosted replicated variables are readable |
| Site.DataManager.constructor | src/main/java/repcrecdb/DataManager.java:67-87 | the constructor's loop builds exactly `InitialState` |
| Site.NewEntry | src/main/java/repcrecdb/DataManager.java:25-34 | a fresh entry involves the requester and nobody else; READ has it as sole reader, WRITE as writer |
| Site.SetLock | src/main/java/repcrecdb/DataManager.java:42-51 | READ joins the reader set and clears the writer; WRITE installs the writer and keeps the reader set |
| Site.Blockers | src/main/java/repcrecdb/DataManager.java:132-151 | the blocking set is exactly the marker owner, the writer and the readers |
| Site.CheckLock | src/main/java/repcrecdb/DataManager.java:94-125 | on a well-formed entry, a request is granted (empty set) iff one of the three rules holds; otherwise the result is the blocking set; a granted WRITE leaves nobody else holding or marking the variable; a granted READ never shares with a writer |
| Site.MarkerOwnerCannotJoinReaders | src/main/java/repcrecdb/DataManager.java:107-110 | owning the pending marker does not let a non-reader join a READ entry; both owner and reader block it |
| Site.WriterReRequestBlocksItself | src/main/java/repcrecdb/DataManager.java:97-124 | a WRITE holder asking for WRITE again is refused, and it appears in its own blocking set |
| Site.PromotionKeepsReader | src/main/java/repcrecdb/DataManager.java:113-118 | the sole reader may promote; the promoted entry is WRITE with the reader set still {tx} |
| Site.Acquire | src/main/java/repcrecdb/DataManager.java:159-182 | an unhosted variable yields {} with no change; otherwise the result is checkLock's, and a refusal changes nothing; a granted lock is held; a granted WRITE clears the requester's own marker; other variables and every write lock are kept |
| Site.DataManager.AcquireLock | src/main/java/repcrecdb/DataManager.java:159-182 | the in-place update yields exactly `Acquire` of the old state |
| Site.PendWrite | src/main/java/repcrecdb/DataManager.java:190-210 | succeeds iff no marker exists; then `tx` owns the marker and loses its own read lock (the entry goes when no reader is left); other readers are untouched; on failure nothing changes |
| Site.DataManager.SetPendingWrite | src/main/java/repcrecdb/DataManager.java:190-210 | the in-place update yields exactly `PendWrite` of the old state |
| Site.Release | src/main/java/repcrecdb/DataManager.java:221-243 | afterwards `tx` is in no entry; WRITE entries it held are gone; READ entries lose only `tx` and go when empty; entries not involving it and other transactions' write locks stay |
| Site.DataManager.ReleaseLocks | src/main/java/repcrecdb/DataManager.java:221-243 | the collect-then-remove loops yield exactly `Release` of the old state |
| Site.Failed | src/main/java/repcrecdb/DataManager.java:251-254 | locks and markers are emptied; values, flags and snapshots survive |
| Site.FailedSiteGrantsAll | src/main/java/repcrecdb/DataManager.java:251-254 | right after a failure, every lock request at the site is granted |
| Site.DataManager.Fail | src/main/java/repcrecdb/DataManager.java:251-254 | the in-place update yields exactly `Failed` |
| Site.Recovered | src/main/java/repcrecdb/DataManager.java:262-267 | every replicated variable becomes unreadable; the flag set and everything else are kept |
| Site.DataManager.Recover | src/main/java/repcrecdb/DataManager.java:262-267 | the flag-by-flag loop yields exactly `Recovered` |
| Site.ReadValue | src/main/java/repcrecdb/DataManager.java:279-289 | a value is returned iff `tx` holds a READ lock on a hosted variable, and it is the current value |
| Site.ReadSnapshot | src/main/java/repcrecdb/DataManager.java:298-302 | no snapshot at tick t gives none; otherwise the snapshot's value |
| Site.Written | src/main/java/repcrecdb/DataManager.java:314-329 | succeeds iff `tx` holds the WRITE lock; then the value is stored and a replicated variable becomes readable; otherwise nothing changes; locks, markers and other variables are untouched |
| Site.DataManager.Write | src/main/java/repcrecdb/DataManager.java:314-329 | the in-place update yields exactly `Written` |
| Site.Snapshotted | src/main/java/repcrecdb/DataManager.java:337-341 | a snapshot at t answers with the current values; snapshots at other ticks are kept |
| Site.SnapshotSurvivesWrite | src/main/java/repcrecdb/DataManager.java:298-341 | a snapshot still answers with the value of its tick after a later write |
| Site.DataManager.TakeSnapshot | src/main/java/repcrecdb/DataManager.java:337-341 | the in-place update yields exactly `Snapshotted` |
| Deadlock.AddedEdge | src/main/java/repcrecdb/WaitForGraph.java:30-34 | exactly one edge source -> end is added; every other edge is unchanged |
| Deadlock.AddEdgeIdempotent | src/main/java/repcrecdb/WaitForGraph.java:30-34 | adding the same edge twice is the same as adding it once |
| Deadlock.WaitForGraph.AddEdge | src/main/java/repcrecdb/WaitForGraph.java:30-34 | the graph becomes `AddedEdge` of the old graph |
| Deadlock.RemovedNode | src/main/java/repcrecdb/WaitForGraph.java:42-47 | the node's entry and every edge into it are gone; every other edge is unchanged |
| Deadlock.RemovedNodeCycles | src/main/java/repcrecdb/WaitForGraph.java:42-47 | a cycle after the removal was already a cycle and avoids the removed node |
| Deadlock.WaitForGraph.RemoveNode | src/main/java/repcrecdb/WaitForGraph.java:42-47 | the loop over the remaining entries yields exactly `RemovedNode` |
| Deadlock.BackEdgeCycle | src/main/java/repcrecdb/WaitForGraph.java:87-101 | a simple path closed by a back edge gives a cycle: the back edge's target, then the path after it, backwards |
| Deadlock.RankedAcyclic | src/main/java/repcrecdb/WaitForGraph.java:57-69 | a graph whose sources all finished the search, each waiting only for nodes that finished earlier, has no cycle |
| Deadlock.UnwindStep | src/main/java/repcrecdb/WaitForGraph.java:94-101 | leaving a node after its subtree reported a cycle keeps the list equal to the target plus the reversed path above the current node; recording stops once the target is reached |
| Deadlock.UnwindList | src/main/java/repcrecdb/WaitForGraph.java:95-100 | the node is already in the list iff it is the back edge's target; otherwise it extends the reversed part |
| Deadlock.BackEdge | src/main/java/repcrecdb/WaitForGraph.java:87-92 | a back edge to a node on the stack starts the list with that node, with recording on |
| Deadlock.Finish | src/main/java/repcrecdb/WaitForGraph.java:104-105 | once all successors have finished, the node finishes with the next rank, and the finished set stays closed and ranked |
| Deadlock.EnterChild | src/main/java/repcrecdb/WaitForGraph.java:93-94 | visiting an unvisited successor extends the simple path and shrinks the unvisited part |
| Deadlock.HasLoopDFS | src/main/java/repcrecdb/WaitForGraph.java:81-106 | on success, the returned list and switch are the rebuilt cycle list for a back edge found below the current node; otherwise the node has finished and everything it reaches has finished earlier |
| Deadlock.Visit | src/main/java/repcrecdb/WaitForGraph.java:83-102 | one successor: skipped when finished, the start of a cycle list when on the stack, explored otherwise |
| Deadlock.Descend | src/main/java/repcrecdb/WaitForGraph.java:93-101 | the recursive call followed by the unwinding step or the pop |
| Deadlock.WaitForGraph.DetectDeadlock | src/main/java/repcrecdb/WaitForGraph.java:57-69 | the edges are untouched; a returned list is a cycle without repeats (the first node waits for the last, each later one for the one before it); none is returned iff the graph has no cycle |
| Txn.NewTransaction | src/main/java/repcrecdb/Transaction.java:17-23 | name, read-only flag and begin time as given; nothing accessed, nothing buffered, no waiting instruction |
| Txn.NewReadWrite | src/main/java/repcrecdb/Transaction.java:13-15 | the two-argument constructor makes a read-write transaction |
| Txn.Read | src/main/java/repcrecdb/Transaction.java:25-27 | none iff the transaction buffered no write to the variable |
| Txn.ReadLatest | src/main/java/repcrecdb/Transaction.java:25-27 | the value read is that of the last buffered write to the variable |
| Txn.ReadOwnWrite | src/main/java/repcrecdb/TransactionManager.java:236-238 | after buffering a write the transaction reads it back; its reads of other variables are unchanged |
| Manager.Without | src/main/java/repcrecdb/TransactionManager.java:456-463 | the buffer keeps exactly the instructions not belonging to the aborted transaction, and never grows |
| Manager.TransactionManager.DropMentions | src/main/java/repcrecdb/TransactionManager.java:456-463 | the removal loop yields exactly `Without` |
| Manager.DropContaining | src/main/java/repcrecdb/TransactionManager.java:456-463 | as written: the buffer keeps exactly the lines whose text does not contain the transaction's name |
| Manager.AbortDropsLongerName | src/main/java/repcrecdb/TransactionManager.java:460 | matching by text, aborting tx also drops a read of any transaction whose name extends tx; `Without` keeps it |
| Manager.UpBelow | src/main/java/repcrecdb/TransactionManager.java:314-325 | exactly the up sites below i: the site list of a replicated write record |
| Manager.AdvanceCovers | src/main/java/repcrecdb/TransactionManager.java:563-575 | N steps of the cursor visit every site and bring it back to its start |
| Manager.TransactionManager.FindNextSite | src/main/java/repcrecdb/TransactionManager.java:563-575 | -1 iff no site is up, with the cursor unmoved; otherwise the first up site reached within N cyclic steps, now the cursor, every site passed on the way being down |
| Manager.TransactionManager.GetUpSiteCount | src/main/java/repcrecdb/TransactionManager.java:583-589 | the number of up sites |
| Manager.TransactionManager.FindYoungest | src/main/java/repcrecdb/TransactionManager.java:616-626 | a member of the list with the largest begin time, the first such in list order |
| Manager.TransactionManager.AllUp | src/main/java/repcrecdb/TransactionManager.java:54-57 | every site up since tick 0 |
| Manager.TransactionManager.constructor | src/main/java/repcrecdb/TransactionManager.java:45-58 | tick 0, no transactions, empty buffer and graph, cursor on the last site, every site up since tick 0; the invariant holds |
| Manager.InitialSites | src/main/java/repcrecdb/DataManager.java:67-87 | every site as its constructor builds it: hosting its catalog, without locks |
| Manager.HoldsExtended | src/main/java/repcrecdb/TransactionManager.java:256-258 | a record that only gains later first accesses keeps its write locks where the sites keep them |
| Manager.InvStep | src/main/java/repcrecdb/TransactionManager.java:391-438 | the invariant survives any step that keeps other transactions' write locks and failure times and only extends or newly creates records |
| Manager.AcquiredAtFacts | src/main/java/repcrecdb/TransactionManager.java:312-328 | taking write locks changes no value and drops no write lock; sites outside the targets are untouched; `tx` holds the lock wherever it was granted |
| Manager.PendedAtFacts | src/main/java/repcrecdb/TransactionManager.java:329-338 | placing markers changes no value and drops no write lock; sites outside are untouched; a free variable gets `tx`'s marker |
| Manager.ReleasedAt | src/main/java/repcrecdb/TransactionManager.java:425-428 | values stay; at each released site `tx` is in no entry; other transactions keep their write locks |
| Manager.SnapshotAll | src/main/java/repcrecdb/TransactionManager.java:187-189 | every site answers a read at tick t with its current value |
| Manager.Commit | src/main/java/repcrecdb/TransactionManager.java:417-423 | applying the buffered writes changes only values and readability; lock and marker tables stay as they are |
| Manager.ApplyRecordFrame | src/main/java/repcrecdb/TransactionManager.java:418-422 | applying one record leaves every other variable, and every site outside the record, as it was |
| Manager.CommitVisible | src/main/java/repcrecdb/TransactionManager.java:417-423 | after commit, at each site of each buffered write where `tx` held the lock, the variable holds that write's value unless a later record writes the same variable at that site |
| Manager.SurvivorCommittable | src/main/java/repcrecdb/TransactionManager.java:405-423 | a transaction that passed validation still holds its write lock at every site of every buffered write, so every write at line 421 succeeds |
| Manager.SurvivorVisible | src/main/java/repcrecdb/TransactionManager.java:405-423 | when a transaction that passed validation commits, every site of each of its writes ends with the value of its last write to that variable there |
| Manager.CommitHeld | src/main/java/repcrecdb/TransactionManager.java:417-423 | writes already applied move no lock, so the next record's sites still hold theirs |
| Manager.WaitsAdded | src/main/java/repcrecdb/TransactionManager.java:261-265 | the edges from `tx` to every blocker but itself are added, and nothing else |
| Manager.TransactionManager.AddWaits | src/main/java/repcrecdb/TransactionManager.java:357-363 | the edge-adding loop yields exactly `WaitsAdded` |
| Manager.CycleNodesInGraph | src/main/java/repcrecdb/TransactionManager.java:76-79 | every member of a reported cycle has a graph entry, hence a registered transaction |
| Manager.FailVoidsCommit | src/main/java/repcrecdb/TransactionManager.java:405-412 | a failure of an accessed site, after the first access, voids the commit |
| Manager.Touch | src/main/java/repcrecdb/TransactionManager.java:256-258 | a first access is recorded at the current tick; a recorded access is never moved |
| Manager.TouchAll | src/main/java/repcrecdb/TransactionManager.java:321-323 | the same for each site of a write |
| Manager.InvFail | src/main/java/repcrecdb/TransactionManager.java:478-482 | a failure at the start of a tick keeps the invariant: buffered writes at the failed site date from earlier ticks |
| Manager.InvRecover | src/main/java/repcrecdb/TransactionManager.java:492-497 | a recovery keeps the invariant |
| Manager.InvSnapshot | src/main/java/repcrecdb/TransactionManager.java:183-192 | snapshots plus a new read-only transaction keep the invariant |
| Manager.InvNextTick | src/main/java/repcrecdb/TransactionManager.java:73 | after the clock advances, the invariant holds and no access is recorded at the new tick |
| Manager.InvSameTick | src/main/java/repcrecdb/TransactionManager.java:87-89 | a tick given back keeps the invariant |
| Manager.InvWrite | src/main/java/repcrecdb/TransactionManager.java:312-328 | a write admitted at sites whose locks `tx` now holds keeps the invariant |
| Manager.InvAcquired | src/main/java/repcrecdb/TransactionManager.java:312-328 | taking the locks at every target and appending the record keeps the invariant |
| Manager.InvRefused | src/main/java/repcrecdb/TransactionManager.java:329-363 | markers and wait-for edges of a refused write keep the invariant |
| Manager.InvRead | src/main/java/repcrecdb/TransactionManager.java:254-265 | a served read, its recorded access and its wait-for edges keep the invariant |
| Manager.InvEnd | src/main/java/repcrecdb/TransactionManager.java:413-430 | commit or not, the release plus removal from the registry and the graph keep the invariant |
| Manager.CheckPassMeaning | src/main/java/repcrecdb/TransactionManager.java:299-311 | the first pass counts the granting up sites; its blocker set is empty iff all grant; otherwise it holds the blockers of the last refusing up site |
| Manager.GrantingAll | src/main/java/repcrecdb/TransactionManager.java:312 | the grant count equals the up-site count iff every up site grants |
| Manager.TransactionManager.CheckWriteLocks | src/main/java/repcrecdb/TransactionManager.java:299-311 | count == up count iff every up site grants, iff no blockers; blockers come from the last refusing up site |
| Manager.TransactionManager.AcquireWriteLocks | src/main/java/repcrecdb/TransactionManager.java:312-325 | the write lock is taken at every up site, ascending, and those sites are listed |
| Manager.TransactionManager.PendWrites | src/main/java/repcrecdb/TransactionManager.java:329-338 | a marker attempt at every up site |
| Manager.TransactionManager.WriteSites | src/main/java/repcrecdb/TransactionManager.java:295-355 | admitted iff some target exists and every target grants; then locks at all targets and the record appended; else markers for a replicated variable and a non-empty blocker set |
| Manager.TransactionManager.Write | src/main/java/repcrecdb/TransactionManager.java:285-365 | (as `WriteDone`) unknown tx succeeds with no change; otherwise admitted iff every target grants (none when no target is up); an admitted write changes no value, takes the locks and buffers the record; a refused one leaves only markers and edges to the last refusing site's blockers |
| Manager.TransactionManager.FirstReadSite | src/main/java/repcrecdb/TransactionManager.java:214-225 | -1 iff no up site for a replicated variable or the home site is down; otherwise an up site, the home site for an odd variable |
| Manager.TransactionManager.ReadAttempts | src/main/java/repcrecdb/TransactionManager.java:227-252 | a found value was served by a snapshot, the transaction's own write, or a read lock at a readable copy; an odd variable is tried only at its home site; blockers come from a refusing up site |
| Manager.TransactionManager.Read | src/main/java/repcrecdb/TransactionManager.java:209-268 | (as `ReadDone`) unknown tx succeeds with no change; success iff a value is served; then the access is recorded; failure changes only the graph; own buffered writes are always served while a copy site is up; an odd variable without one is served iff the home site grants READ |
| Manager.TransactionManager.Begin | src/main/java/repcrecdb/TransactionManager.java:169-172 | registers a new read-write transaction starting now |
| Manager.TransactionManager.BeginRO | src/main/java/repcrecdb/TransactionManager.java:183-192 | succeeds iff every site is up; then every site snapshots at the current tick and a read-only transaction starts; otherwise nothing changes |
| Manager.TransactionManager.SnapshotEach | src/main/java/repcrecdb/TransactionManager.java:187-189 | the per-site loop yields exactly `SnapshotAll` |
| Manager.TransactionManager.Fail | src/main/java/repcrecdb/TransactionManager.java:478-482 | the site is down as of now and its tables are `Failed` |
| Manager.TransactionManager.Recover | src/main/java/repcrecdb/TransactionManager.java:492-497 | the site is up, keeping its last failure time, and its tables are `Recovered` |
| Manager.TransactionManager.Validate | src/main/java/repcrecdb/TransactionManager.java:405-412 | commit iff no accessed site failed after the first access |
| Manager.TransactionManager.CommitWrites | src/main/java/repcrecdb/TransactionManager.java:417-423 | the nested loops yield exactly `Commit` |
| Manager.TransactionManager.ApplyEach | src/main/java/repcrecdb/TransactionManager.java:418-422 | each site write of a record succeeds, as the assert expects |
| Manager.TransactionManager.ReleaseEach | src/main/java/repcrecdb/TransactionManager.java:425-428 | the release loop yields exactly `ReleasedAt` |
| Manager.TransactionManager.End | src/main/java/repcrecdb/TransactionManager.java:391-438 | (as `EndDone`) unknown tx succeeds with no change; while instructions wait it fails with no change; else it commits iff validation passes, releases at every accessed site, and leaves the registry and the graph |
| Manager.TransactionManager.Abort | src/main/java/repcrecdb/TransactionManager.java:449-468 | release at every accessed site, buffer filtered, node and record removed; invariant kept |
| Manager.InvCounted | src/main/java/repcrecdb/TransactionManager.java:538-555 | moving a waiting-instruction count keeps the invariant, and a registry with no access at the current tick keeps that property |
| Manager.TransactionManager.UpdateBlockedInstrCnt | src/main/java/repcrecdb/TransactionManager.java:538-555 | the registry becomes `Counted`: a failure not yet counted adds one to `tx`'s count; a success of a counted instruction subtracts one; no other record and no other field changes; the invariant is kept |
| Manager.TransactionManager.Execute | src/main/java/repcrecdb/TransactionManager.java:128-159 | begin, fail, recover, dump and querystate always succeed; an unknown instruction fails and changes nothing; begin, beginRO, fail and recover have exactly their methods' effects; an R, W or end instruction has the outcome and new state that `ReadDone`, `WriteDone` and `EndDone` state for read, write and end, and for R and W the registry is then `Counted` by that outcome; only fail and recover change the status table |
| Manager.TransactionManager.CountedRead | src/main/java/repcrecdb/TransactionManager.java:136-140 | the outcome, value, serving site, blockers and new state of the read are exactly those `ReadDone` states, and the registry the read left is then `Counted` by the outcome |
| Manager.TransactionManager.CountedWrite | src/main/java/repcrecdb/TransactionManager.java:141-145 | the outcome, blockers and new state of the write are exactly those `WriteDone` states, and the registry the write left is then `Counted` by the outcome |
| Manager.TransactionManager.ResolveDeadlock | src/main/java/repcrecdb/TransactionManager.java:75-80 | (as `DeadlockBroken`) no victim iff no cycle, with nothing changed; otherwise the victim is on a cycle, begins no earlier than any member, and is aborted: released at its accessed sites, its instructions dropped, its node and record removed |
| Manager.TransactionManager.Drain | src/main/java/repcrecdb/TransactionManager.java:96-104 | either all stayed blocked, with the buffer unchanged, no access recorded this tick, and no instruction of a kind that always succeeds in it; or exactly one instruction left the buffer, the rest kept their order, it was not an unknown one, and none before it was of a kind that always succeeds |
| Manager.TransactionManager.StartTick | src/main/java/repcrecdb/TransactionManager.java:73-80 | the clock advances by one, the buffer does not grow, the invariant holds at the old tick, and the deadlock check's victim and effect are those `DeadlockBroken` states |
| Manager.TransactionManager.FinishTick | src/main/java/repcrecdb/TransactionManager.java:82-109 | a blank line gives the tick back with the buffer unchanged and no stop; otherwise the run stops iff everything stayed blocked and no input is left; when everything stayed blocked the buffer is the old one plus the new line, with nothing in it that always succeeds |
| Manager.TransactionManager.Tick | src/main/java/repcrecdb/TransactionManager.java:72-109 | a blank line costs no tick and never stops the run, any other step advances the clock by one and stops iff everything stayed blocked and no input is left; there is a victim iff the graph had a cycle; with no victim and everything blocked, the buffer only gained the new line; a pass without input that does not stop shortens the buffer |
| Manager.TransactionManager.Run | src/main/java/repcrecdb/TransactionManager.java:70-112 | the tick loop terminates with the invariant intact and the clock never goes back |

## Findings

| source | as written | input that shows it | evidently intended | confidence | as-written member | corrected member |
|---|---|---|---|---|---|---|
| src/main/java/repcrecdb/TransactionManager.java:460 | abort drops every buffered line whose text contains the aborted transaction's name | aborting T1 while "R(T10,x2)" waits: the line contains "T1" and is dropped | drop only the aborted transaction's own instructions, as the comment at line 456 says | high, not executed | Manager.DropContaining, Manager.AbortDropsLongerName | Manager.Without |

## Left out

- Site tables held by value: the coordinator keeps `sites: map<int, SiteState>`, not references to `DataManager` objects. The in-place updates are proved once, on `Site.DataManager`. Aliasing between the coordinator and the site objects is therefore not captured.
- Parsing (tokenising, `Integer.parseInt`, argument counts) is not modelled. Instructions arrive as an `Instruction` value. A line the parser rejects is `Unknown` and fails.
- Malformed R and W lines: `parse` still calls `updateBlockedInstrCnt` for them. `Unknown` leaves every counter alone.
- Variable and site numbers must lie in the catalog (`WellFormed`), so neither out-of-range case is modelled.
  - An out-of-range site number makes the source throw: `fail` and `recover` call a method on `dms.get(site)`, which is `null` (TransactionManager.java:480, 493).
  - An out-of-range variable such as x21 or x22 throws nothing. `checkLock` finds no entry and grants, and `acquireLock` returns the empty set for a variable the site does not host without taking a lock (DataManager.java:160-162). So `write` admits it and buffers a record.
  - `read` of such a variable returns false unless the read-write transaction buffered a write to it. The transaction's own writes are looked up before any lock or readability test (TransactionManager.java:238), so that write is read back while a site to read from is up. Otherwise a replicated one is never readable, `DataManager.read` finds no lock entry for an odd one (DataManager.java:279-289), and a read-only transaction's snapshot has no entry.
  - At `end`, the commit write of that record returns false, so the assert at TransactionManager.java:421 fails when assertions are enabled.
- All printing is not modelled: `dump`, `queryState`, `toString` and the messages in `read`, `end`, `abort` and `run`. `Dump` and `QueryState` succeed and change nothing.
- Hash-table iteration over the site status table is taken in ascending site id, which is how `HashMap` iterates small `Integer` keys. Loops whose order does not affect the result visit their keys in an unspecified order.
- A write records its sites' first accesses when the record is appended, not site by site inside the lock loop. The result is the same.
- The empty string is the lock entry's "no writer" value, so transaction names are required to be non-empty.
- Integers are unbounded: the tick counter and the waiting-instruction counter never wrap.
- The waiting-instruction counter is not proved non-negative or exact, and the source's count can be off.
  - The line that arrives in a tick sits last in the buffer with `hasNewInstr` true, so the pass that brings it tries it as not yet waiting (TransactionManager.java:99; `Drain` does the same).
  - The miscount hits a line that joined in a pass in which an earlier instruction succeeded, so it was never tried in that pass.
  - It is first tried in a later pass, where it is not last or no line arrived, so it counts as already waiting. Its failure adds nothing to the counter, and its success subtracts one.
- Transaction.java: the coordinator uses its own shape, not the file as shown. `accessedSites` is a map from site to first-access tick, writes are a list of (variable, value, sites) records, and there is a waiting-instruction counter. The class `WriteRecord` is not part of this model. `Txn.Read` returns the value of the most recent record for the variable, which is what the record list implies.
- Deadlock.WaitForGraph.DetectDeadlock: returns some cycle of the graph, not necessarily the one the Java hash order would find first.
- Manager.TransactionManager.ReadAttempts: for a replicated variable, does not state the round-robin order of the tried sites. It also does not state that a failed read tried as many sites as are up.
- Manager.TransactionManager.Read: for the same reason, `ReadDone` does not state the failure direction for a replicated variable. A failed read that neither a snapshot nor the transaction's own write could serve is not stated to have found every up site unreadable or refusing.
- Manager.TransactionManager.FindYoungest: requires begin times above the smallest Java `int`. The coordinator's begin times are never negative.
- Manager.TransactionManager.Fail: requires that no access has been recorded at the current tick yet. The tick loop guarantees this, because only the first successful instruction of a tick runs.
- Manager.TransactionManager.Drain: states which kinds of instruction were passed over, not what each failed attempt left behind (its markers, wait-for edges and counter change). The states between attempts are not kept.
- Manager.TransactionManager.FinishTick: for the same reason, when one instruction succeeded, the state after the pass is not tied to the state before it beyond the invariant and the buffer.
- Manager.TransactionManager.Tick: the same holds for the pass that follows the deadlock check.
- Manager.TransactionManager.Run: states only that the invariant is kept and the clock never goes back; the printed outcome is not modelled.
