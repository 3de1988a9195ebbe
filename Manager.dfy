/**
 * The coordinator (TransactionManager.java): the site status table, the
 * transaction registry, the buffer of instructions waiting to run, the
 * logical clock and the round-robin cursor for replicated reads.
 *
 * The first half states, on values, what the coordinator keeps true of the
 * sites and the registry; its central part, `Holds`, says that a buffered
 * write still owns its write locks at every site that has not failed since
 * the transaction first touched it. That is what makes every site write
 * at commit succeed. The class `TransactionManager` at the end is the
 * coordinator itself; it holds the tables of every site as values.
 */
module Manager {
  import opened Common
  import opened Site
  import opened Deadlock
  import Txn

  type Transaction = Txn.Transaction
  type WriteRecord = Txn.WriteRecord

  datatype RunningStatus = Up | Down

  /** A row of the site status table; `lastDownTime` is only moved by a failure. */
  datatype SiteStatus = SiteStatus(status: RunningStatus, lastDownTime: int)

  /** The smallest Java `int`, where findYoungest starts its maximum. */
  const IntMin := -0x8000_0000

  /**
   * An instruction line after parsing. `Unknown` is a line whose command or
   * argument count the parser rejects; it never succeeds.
   */
  datatype Instruction =
    | Begin(tx: TxId)
    | BeginRO(tx: TxId)
    | R(tx: TxId, varId: int)
    | W(tx: TxId, varId: int, value: int)
    | End(tx: TxId)
    | Fail(site: int)
    | Recover(site: int)
    | Dump
    | QueryState
    | Unknown(text: string)

  /** An input line: a comment or blank line, or an instruction. */
  datatype InputLine = Blank | Line(instr: Instruction)

  /** Variable and site numbers within the catalog. */
  predicate WellFormed(ins: Instruction)
  {
    match ins
    case R(_, v) => 1 <= v <= NumVars
    case W(_, v, _) => 1 <= v <= NumVars
    case Fail(s) => 1 <= s <= NumSites
    case Recover(s) => 1 <= s <= NumSites
    case _ => true
  }

  predicate InputOk(input: seq<InputLine>)
  {
    forall i :: 0 <= i < |input| && input[i].Line? ==> WellFormed(input[i].instr)
  }

  predicate BufferOk(buffer: seq<Instruction>)
  {
    forall ins :: ins in buffer ==> WellFormed(ins)
  }

  /** `tx` occurs in the text of `s` (String.contains). */
  predicate Contains(s: string, tx: TxId)
    decreases |s|
  {
    |s| >= |tx| && (s[..|tx|] == tx || Contains(s[1..], tx))
  }

  /** The instruction belongs to `tx`: its transaction argument is `tx`. */
  predicate Mentions(ins: Instruction, tx: TxId)
  {
    match ins
    case Begin(t) => t == tx
    case BeginRO(t) => t == tx
    case R(t, _) => t == tx
    case W(t, _, _) => t == tx
    case End(t) => t == tx
    case Unknown(text) => Contains(text, tx)
    case _ => false
  }

  /** The buffer after abort drops the instructions that mention `tx`. */
  function Without(buffer: seq<Instruction>, tx: TxId): (r: seq<Instruction>)
    ensures |r| <= |buffer|
    ensures forall ins :: ins in r <==> ins in buffer && !Mentions(ins, tx)
    decreases |buffer|
  {
    if buffer == [] then []
    else
      var rest := Without(buffer[..|buffer| - 1], tx);
      var last := buffer[|buffer| - 1];
      assert buffer == buffer[..|buffer| - 1] + [last];
      if Mentions(last, tx) then rest else rest + [last]
  }

  /**
   * The buffer filter of abort as written: the buffer holds instruction
   * lines as text, and a line is dropped whenever the name of the aborted
   * transaction occurs anywhere in it.
   */
  function DropContaining(lines: seq<string>, tx: TxId): (r: seq<string>)
    ensures |r| <= |lines|
    ensures forall l :: l in r <==> l in lines && !Contains(l, tx)
    decreases |lines|
  {
    if lines == [] then []
    else
      var rest := DropContaining(lines[..|lines| - 1], tx);
      var last := lines[|lines| - 1];
      assert lines == lines[..|lines| - 1] + [last];
      if Contains(last, tx) then rest else rest + [last]
  }

  /**
   * Matching by text, aborting `tx` also drops a waiting read of any
   * transaction whose name extends it (T10 for T1); matching by the
   * transaction argument keeps it.
   */
  lemma AbortDropsLongerName(tx: TxId, suffix: string, rest: string, v: int)
    requires suffix != []
    ensures Contains("R(" + tx + suffix + rest, tx)
    ensures DropContaining(["R(" + tx + suffix + rest], tx) == []
    ensures Without([R(tx + suffix, v)], tx) == [R(tx + suffix, v)]
  {
  }

  // ---------------------------------------------------------------------------
  // Sites: identities, status, the round-robin cursor
  // ---------------------------------------------------------------------------

  predicate IsSiteId(s: int)
  {
    1 <= s <= NumSites
  }

  function SiteIds(): set<int>
  {
    set s | 1 <= s <= NumSites && IsSiteId(s)
  }

  predicate Below(s: int, k: int)
  {
    1 <= s <= k
  }

  lemma {:induction false} RangeCard(k: nat)
    ensures |set s | 1 <= s <= k && Below(s, k)| == k
  {
    if k > 0 {
      var j := k - 1;
      RangeCard(j);
      assert (set s | 1 <= s <= k && Below(s, k)) == (set s | 1 <= s <= j && Below(s, j)) + {k};
    }
  }

  /** There are as many sites as the catalog numbers. */
  lemma SiteIdsCard()
    ensures |SiteIds()| == NumSites
  {
    RangeCard(NumSites);
    assert SiteIds() == set s | 1 <= s <= NumSites && Below(s, NumSites);
  }

  predicate IsUp(status: map<int, SiteStatus>, s: int)
  {
    s in status && status[s].status.Up?
  }

  function UpSet(status: map<int, SiteStatus>): set<int>
  {
    set s | s in status && status[s].status.Up?
  }

  /** The up sites below `i`. */
  function UpBefore(status: map<int, SiteStatus>, i: int): set<int>
  {
    set u | 1 <= u < i && IsUp(status, u)
  }

  /** The up sites below `i`, in ascending order: where a replicated write goes. */
  function UpBelow(status: map<int, SiteStatus>, i: int): (r: seq<int>)
    ensures forall s :: s in r <==> 1 <= s < i && IsUp(status, s)
    decreases i
  {
    if i <= 1 then []
    else
      var r := UpBelow(status, i - 1);
      if IsUp(status, i - 1) then r + [i - 1] else r
  }

  /** The cursor's step: the next site id, wrapping from N back to 1. */
  function NextSite(s: int): int
  {
    if s + 1 > NumSites then 1 else s + 1
  }

  /** The cursor after `j` steps from `last`. */
  function Advance(last: int, j: nat): int
    decreases j
  {
    if j == 0 then last else NextSite(Advance(last, j - 1))
  }

  lemma {:induction false} AdvanceClosed(last: int, j: nat)
    requires 1 <= last <= NumSites
    ensures Advance(last, j) == (last - 1 + j) % NumSites + 1
  {
    if j > 0 {
      AdvanceClosed(last, j - 1);
      ModNext(last - 1 + j - 1);
    }
  }

  /** Counting up by one modulo the number of sites. */
  lemma ModNext(a: nat)
    ensures (a + 1) % NumSites == if a % NumSites + 1 < NumSites then a % NumSites + 1 else 0
  {
  }

  /** N steps of the cursor visit every site, and bring it back where it started. */
  lemma AdvanceCovers(last: int)
    requires 1 <= last <= NumSites
    ensures forall s :: IsSiteId(s) ==> exists j :: 1 <= j <= NumSites && Advance(last, j) == s
    ensures Advance(last, NumSites) == last
  {
    forall s | IsSiteId(s)
      ensures exists j :: 1 <= j <= NumSites && Advance(last, j) == s
    {
      AdvanceReaches(last, s);
    }
    AdvanceClosed(last, NumSites);
    ModSmall(last - 1 + NumSites);
  }

  /** The cursor reaches site `s` within N steps. */
  lemma AdvanceReaches(last: int, s: int)
    requires 1 <= last <= NumSites && IsSiteId(s)
    ensures Advance(last, if s > last then s - last else s - last + NumSites) == s
  {
    var j := if s > last then s - last else s - last + NumSites;
    AdvanceClosed(last, j);
    ModSmall(last - 1 + j);
  }

  /** Reduction modulo the number of sites below twice that number. */
  lemma ModSmall(a: int)
    requires 0 <= a < 2 * NumSites
    ensures a % NumSites == if a < NumSites then a else a - NumSites
  {
  }

  lemma SubsetCard<T>(a: set<T>, b: set<T>)
    requires a <= b
    ensures |a| <= |b|
    ensures |a| == |b| ==> a == b
  {
    assert b == a + (b - a) && a * (b - a) == {};
    if |a| == |b| {
      assert |b - a| == 0;
    }
  }

  // ---------------------------------------------------------------------------
  // What the coordinator keeps true
  // ---------------------------------------------------------------------------

  /** The shape of site `s`: a valid site hosting exactly its catalog variables. */
  ghost predicate SiteOk(s: int, st: SiteState)
  {
    ValidSite(st) && forall v :: v in st.data <==> Hosts(s, v)
  }

  ghost predicate AllValid(sts: map<int, SiteState>)
  {
    forall s :: s in sts ==> ValidSite(sts[s])
  }

  /** A transaction record as the coordinator builds it. */
  ghost predicate TxOk(n: TxId, t: Transaction, ticks: int)
  {
    && t.name == n && 0 <= t.beginTime <= ticks
    && (forall s :: s in t.accessedSites ==> 1 <= s <= NumSites && t.accessedSites[s] <= ticks)
    && (forall i :: 0 <= i < |t.writes| ==> 1 <= t.writes[i].varId <= NumVars)
    && (forall i, s :: 0 <= i < |t.writes| && s in t.writes[i].sites ==> s in t.accessedSites)
  }

  /**
   * Every buffered write of `n` still holds its write lock at each of its
   * sites that has not failed since `n` first accessed it.
   */
  ghost predicate Holds(sts: map<int, SiteState>, status: map<int, SiteStatus>, n: TxId, t: Transaction)
  {
    forall i, s ::
      (&& 0 <= i < |t.writes| && s in t.writes[i].sites && s in t.accessedSites && s in status && s in sts
       && status[s].lastDownTime <= t.accessedSites[s])
      ==> WriteLockedBy(sts[s], t.writes[i].varId, n)
  }

  ghost predicate Inv(sts: map<int, SiteState>, status: map<int, SiteStatus>, txs: map<TxId, Transaction>,
                      graph: Graph, ticks: int)
  {
    && sts.Keys == SiteIds() && status.Keys == SiteIds()
    && (forall s :: s in sts ==> SiteOk(s, sts[s]))
    && ticks >= 0
    && (forall n :: n in txs ==> TxOk(n, txs[n], ticks) && Holds(sts, status, n, txs[n]))
    && graph.Keys <= txs.Keys
  }

  /** No access is recorded at the current tick yet: the state at the start of a tick. */
  ghost predicate Fresh(txs: map<TxId, Transaction>, ticks: int)
  {
    forall n, s :: n in txs && s in txs[n].accessedSites ==> txs[n].accessedSites[s] < ticks
  }

  /** Commit validation: no accessed site failed after the transaction first touched it. */
  predicate Survived(t: Transaction, status: map<int, SiteStatus>)
  {
    forall s :: s in t.accessedSites && s in status ==> status[s].lastDownTime <= t.accessedSites[s]
  }

  /** Every write lock held at `sts` by a transaction of `live` is still held at `sts'`. */
  ghost predicate KeepsFor(sts: map<int, SiteState>, sts': map<int, SiteState>, live: set<TxId>)
  {
    forall s, v, x :: s in sts && s in sts' && x in live && WriteLockedBy(sts[s], v, x) ==> WriteLockedBy(sts'[s], v, x)
  }

  /** `t'` is `t` with possibly more sites recorded; nothing already recorded moves. */
  ghost predicate Extends(t: Transaction, t': Transaction, ticks: int)
  {
    && t'.name == t.name && t'.beginTime == t.beginTime && t'.writes == t.writes
    && (forall s :: s in t.accessedSites ==> s in t'.accessedSites && t'.accessedSites[s] == t.accessedSites[s])
    && (forall s :: s in t'.accessedSites ==> 1 <= s <= NumSites && t'.accessedSites[s] <= ticks)
  }

  lemma HoldsExtended(sts: map<int, SiteState>, status: map<int, SiteStatus>, sts': map<int, SiteState>, status': map<int, SiteStatus>,
                      n: TxId, t: Transaction, t': Transaction, ticks: int, ticks': int, live: set<TxId>)
    requires TxOk(n, t, ticks) && Holds(sts, status, n, t)
    requires Extends(t, t', ticks') && ticks <= ticks'
    requires sts.Keys <= sts'.Keys && KeepsFor(sts, sts', live) && n in live
    requires status.Keys == status'.Keys && forall s :: s in status ==> status'[s].lastDownTime == status[s].lastDownTime
    requires sts'.Keys <= sts.Keys
    ensures TxOk(n, t', ticks') && Holds(sts', status', n, t')
  {
    forall i, s | 0 <= i < |t'.writes| && s in t'.writes[i].sites && s in t'.accessedSites && s in status' && s in sts'
      && status'[s].lastDownTime <= t'.accessedSites[s]
      ensures WriteLockedBy(sts'[s], t'.writes[i].varId, n)
    {
      assert s in t.accessedSites;
      assert WriteLockedBy(sts[s], t.writes[i].varId, n);
    }
  }

  /**
   * The invariant survives any step that keeps other transactions' write
   * locks and failure times, and that only extends or freshly creates
   * transaction records.
   */
  lemma InvStep(sts: map<int, SiteState>, status: map<int, SiteStatus>, txs: map<TxId, Transaction>, g: Graph, ticks: int,
                sts': map<int, SiteState>, status': map<int, SiteStatus>, txs': map<TxId, Transaction>, g': Graph, ticks': int)
    requires Inv(sts, status, txs, g, ticks)
    requires sts'.Keys == sts.Keys && (forall s :: s in sts' ==> SiteOk(s, sts'[s]))
    requires KeepsFor(sts, sts', txs'.Keys)
    requires status'.Keys == status.Keys && forall s :: s in status ==> status'[s].lastDownTime == status[s].lastDownTime
    requires ticks <= ticks'
    requires forall n :: n in txs' ==>
      (n in txs && Extends(txs[n], txs'[n], ticks')) || (txs'[n].writes == [] && TxOk(n, txs'[n], ticks'))
    requires g'.Keys <= txs'.Keys
    ensures Inv(sts', status', txs', g', ticks')
  {
    forall n | n in txs'
      ensures TxOk(n, txs'[n], ticks') && Holds(sts', status', n, txs'[n])
    {
      if n in txs && Extends(txs[n], txs'[n], ticks') {
        HoldsExtended(sts, status, sts', status', n, txs[n], txs'[n], ticks, ticks', txs'.Keys);
      }
    }
  }

  /** Each record of `txs` is left as it is (a later tick, a shrunk registry). */
  ghost predicate SameRecords(txs: map<TxId, Transaction>, txs': map<TxId, Transaction>, ticks': int)
  {
    forall n :: n in txs' ==> n in txs && Extends(txs[n], txs'[n], ticks')
  }

  // ---------------------------------------------------------------------------
  // Operations over all sites at once
  // ---------------------------------------------------------------------------

  /**
   * Write locks taken at the sites `ss`. As with the markers, each site's
   * tables change on their own.
   */
  function AcquiredAt(sts: map<int, SiteState>, ss: set<int>, tx: TxId, v: int): (r: map<int, SiteState>)
    requires AllValid(sts)
    ensures r.Keys == sts.Keys && AllValid(r)
  {
    map s | s in sts :: if s in ss then Acquire(sts[s], tx, v, LockKind.Write).0 else sts[s]
  }

  /**
   * Taking write locks changes no data and drops no write lock, leaves the
   * sites outside `ss` alone, and `tx` holds the lock wherever it was granted.
   */
  lemma AcquiredAtFacts(sts: map<int, SiteState>, ss: set<int>, tx: TxId, v: int)
    requires AllValid(sts)
    ensures var r := AcquiredAt(sts, ss, tx, v);
      && (forall s :: s in sts ==> r[s].data == sts[s].data && KeepsWriteLocks(sts[s], r[s]))
      && (forall s :: s in sts && s !in ss ==> r[s] == sts[s])
      && (forall s :: s in ss && s in sts && v in sts[s].data && CheckLockAt(sts[s], tx, v, LockKind.Write) == {} ==>
            WriteLockedBy(r[s], v, tx))
  {
  }

  /**
   * Pending-write markers placed at the sites `ss`. Each site's tables
   * change on their own, so the order in which the sites are visited does
   * not matter.
   */
  function PendedAt(sts: map<int, SiteState>, ss: set<int>, tx: TxId, v: int): (r: map<int, SiteState>)
    requires AllValid(sts)
    ensures r.Keys == sts.Keys && AllValid(r)
  {
    map s | s in sts :: if s in ss then PendWrite(sts[s], tx, v).0 else sts[s]
  }

  /**
   * Placing markers changes no data and drops no write lock, leaves the
   * sites outside `ss` alone, and marks `v` for `tx` wherever it was free.
   */
  lemma PendedAtFacts(sts: map<int, SiteState>, ss: set<int>, tx: TxId, v: int)
    requires AllValid(sts)
    ensures var r := PendedAt(sts, ss, tx, v);
      && (forall s :: s in sts ==> r[s].data == sts[s].data && KeepsWriteLocks(sts[s], r[s]))
      && (forall s :: s in sts && s !in ss ==> r[s] == sts[s])
      && (forall s :: s in ss && s in sts && v !in sts[s].pending ==> r[s].pending == sts[s].pending[v := tx])
  {
  }

  /** The locks of `tx` released at the sites `ss`. */
  function ReleasedAt(sts: map<int, SiteState>, tx: TxId, ss: set<int>): (r: map<int, SiteState>)
    requires AllValid(sts)
    ensures r.Keys == sts.Keys && AllValid(r)
    ensures forall s :: s in sts ==> r[s].data == sts[s].data
    ensures forall s :: s in ss && s in r ==> forall u :: u in r[s].locks ==> !Involves(r[s].locks[u], tx)
    ensures forall s, v, x :: s in sts && x != tx && WriteLockedBy(sts[s], v, x) ==> WriteLockedBy(r[s], v, x)
  {
    map s | s in sts :: if s in ss then Release(sts[s], tx) else sts[s]
  }

  /** A snapshot under tick `t` at every site. */
  function SnapshotAll(sts: map<int, SiteState>, t: int): (r: map<int, SiteState>)
    ensures r.Keys == sts.Keys
    ensures forall s, v :: s in sts ==> ReadSnapshot(r[s], v, t) == Get(sts[s].data, v)
  {
    map s | s in sts :: Snapshotted(sts[s], t)
  }

  /** One buffered write applied at `sites`, in order. */
  function ApplyRecord(sts: map<int, SiteState>, tx: TxId, w: WriteRecord, sites: seq<int>): (r: map<int, SiteState>)
    requires AllValid(sts)
    ensures r.Keys == sts.Keys && AllValid(r)
    ensures forall s :: s in sts ==>
      && r[s].locks == sts[s].locks && r[s].pending == sts[s].pending
      && r[s].snapshots == sts[s].snapshots && r[s].data.Keys == sts[s].data.Keys
    decreases |sites|
  {
    if sites == [] then sts
    else
      var pre := ApplyRecord(sts, tx, w, sites[..|sites| - 1]);
      var s := sites[|sites| - 1];
      if s in pre then pre[s := Written(pre[s], tx, w.varId, w.value).0] else pre
  }

  /** The commit of `tx`: its buffered writes, oldest first. */
  function Commit(sts: map<int, SiteState>, tx: TxId, ws: seq<WriteRecord>): (r: map<int, SiteState>)
    requires AllValid(sts)
    ensures r.Keys == sts.Keys && AllValid(r)
    ensures forall s :: s in sts ==>
      && r[s].locks == sts[s].locks && r[s].pending == sts[s].pending
      && r[s].snapshots == sts[s].snapshots && r[s].data.Keys == sts[s].data.Keys
    decreases |ws|
  {
    if ws == [] then sts
    else
      var w := ws[|ws| - 1];
      ApplyRecord(Commit(sts, tx, ws[..|ws| - 1]), tx, w, w.sites)
  }

  /** After a record is applied, each of its sites where `tx` held the lock shows its value. */
  lemma {:induction false} ApplyRecordVisible(sts: map<int, SiteState>, tx: TxId, w: WriteRecord, sites: seq<int>, s: int)
    requires AllValid(sts) && s in sites && s in sts && WriteLockedBy(sts[s], w.varId, tx)
    ensures w.varId in ApplyRecord(sts, tx, w, sites)[s].data
    ensures ApplyRecord(sts, tx, w, sites)[s].data[w.varId] == w.value
    decreases |sites|
  {
    var pre := sites[..|sites| - 1];
    if sites[|sites| - 1] != s {
      assert sites == pre + [sites[|sites| - 1]];
      assert s in pre;
      ApplyRecordVisible(sts, tx, w, pre, s);
    }
  }

  /** Applying a record leaves every other variable, and every site outside the record, as it was. */
  lemma {:induction false} ApplyRecordFrame(sts: map<int, SiteState>, tx: TxId, w: WriteRecord, sites: seq<int>, s: int, u: int)
    requires AllValid(sts) && s in sts
    requires u != w.varId || s !in sites
    ensures Get(ApplyRecord(sts, tx, w, sites)[s].data, u) == Get(sts[s].data, u)
    decreases |sites|
  {
    if sites != [] {
      var pre := sites[..|sites| - 1];
      assert sites == pre + [sites[|sites| - 1]];
      ApplyRecordFrame(sts, tx, w, pre, s, u);
    }
  }

  /**
   * Read-after-commit: once `tx` commits, each buffered write shows its
   * value at every one of its sites where `tx` held the write lock, unless
   * a later buffered write of the same variable covers that site.
   */
  lemma {:induction false} CommitVisible(sts: map<int, SiteState>, tx: TxId, ws: seq<WriteRecord>, i: int, s: int)
    requires AllValid(sts) && 0 <= i < |ws| && s in ws[i].sites && s in sts
    requires WriteLockedBy(sts[s], ws[i].varId, tx)
    requires forall j :: i < j < |ws| ==> ws[j].varId != ws[i].varId || s !in ws[j].sites
    ensures Get(Commit(sts, tx, ws)[s].data, ws[i].varId) == Some(ws[i].value)
    decreases |ws|
  {
    var pre, w := ws[..|ws| - 1], ws[|ws| - 1];
    if i == |ws| - 1 {
      ApplyRecordVisible(Commit(sts, tx, pre), tx, w, w.sites, s);
    } else {
      CommitVisible(sts, tx, pre, i, s);
      ApplyRecordFrame(Commit(sts, tx, pre), tx, w, w.sites, s, ws[i].varId);
    }
  }

  /** Every site of every buffered write in `ws` holds `tx`'s write lock on its variable. */
  ghost predicate Committable(sts: map<int, SiteState>, tx: TxId, ws: seq<WriteRecord>)
  {
    forall i, s :: 0 <= i < |ws| && s in ws[i].sites ==> s in sts && WriteLockedBy(sts[s], ws[i].varId, tx)
  }

  /**
   * Why the commit writes of end all succeed: a transaction that survived
   * validation still holds its write lock at every site of every buffered
   * write.
   */
  lemma SurvivorCommittable(sts: map<int, SiteState>, status: map<int, SiteStatus>, tx: TxId, t: Transaction, ticks: int)
    requires sts.Keys == SiteIds() && status.Keys == SiteIds()
    requires TxOk(tx, t, ticks) && Holds(sts, status, tx, t) && Survived(t, status)
    ensures Committable(sts, tx, t.writes)
  {
    forall i, s | 0 <= i < |t.writes| && s in t.writes[i].sites
      ensures s in sts && WriteLockedBy(sts[s], t.writes[i].varId, tx)
    {
      assert s in t.accessedSites;
    }
  }

  /**
   * What a commit leaves behind: a transaction that survived validation
   * finds each of its buffered writes at every site of that write, unless a
   * later buffered write of the same variable covers the site.
   */
  lemma SurvivorVisible(sts: map<int, SiteState>, status: map<int, SiteStatus>, tx: TxId, t: Transaction, ticks: int, i: int, s: int)
    requires sts.Keys == SiteIds() && status.Keys == SiteIds() && AllValid(sts)
    requires TxOk(tx, t, ticks) && Holds(sts, status, tx, t) && Survived(t, status)
    requires 0 <= i < |t.writes| && s in t.writes[i].sites
    requires forall j :: i < j < |t.writes| ==> t.writes[j].varId != t.writes[i].varId || s !in t.writes[j].sites
    ensures Get(Commit(sts, tx, t.writes)[s].data, t.writes[i].varId) == Some(t.writes[i].value)
  {
    SurvivorCommittable(sts, status, tx, t, ticks);
    CommitVisible(sts, tx, t.writes, i, s);
  }

  /** One more buffered write of the commit. */
  lemma CommitStep(sts: map<int, SiteState>, tx: TxId, ws: seq<WriteRecord>, i: int)
    requires AllValid(sts) && 0 <= i < |ws|
    ensures Commit(sts, tx, ws[..i + 1]) == ApplyRecord(Commit(sts, tx, ws[..i]), tx, ws[i], ws[i].sites)
  {
    assert ws[..i + 1][..i] == ws[..i];
  }

  /** The writes already applied move no lock, so the next record's sites still hold theirs. */
  lemma CommitHeld(sts: map<int, SiteState>, tx: TxId, ws: seq<WriteRecord>, i: int)
    requires AllValid(sts) && Committable(sts, tx, ws) && 0 <= i < |ws|
    ensures forall s :: s in ws[i].sites ==>
      s in Commit(sts, tx, ws[..i]) && WriteLockedBy(Commit(sts, tx, ws[..i])[s], ws[i].varId, tx)
  {
  }

  /** The wait-for edges from `tx` to every blocker but itself. */
  function WaitsAdded(g: Graph, tx: TxId, blockers: set<TxId>): (r: Graph)
    ensures forall u, w :: w in Succ(r, u) <==> w in Succ(g, u) || (u == tx && w in blockers && w != tx)
    ensures r.Keys == if blockers - {tx} == {} then g.Keys else g.Keys + {tx}
  {
    if blockers - {tx} == {} then g else g[tx := Succ(g, tx) + (blockers - {tx})]
  }

  lemma WaitsAddedStep(g: Graph, tx: TxId, done: set<TxId>, b: TxId)
    requires b != tx
    ensures AddedEdge(WaitsAdded(g, tx, done), tx, b) == WaitsAdded(g, tx, done + {b})
  {
    var l, r := AddedEdge(WaitsAdded(g, tx, done), tx, b), WaitsAdded(g, tx, done + {b});
    assert l.Keys == r.Keys;
    forall u | u in l
      ensures l[u] == r[u]
    {
      assert l[u] == Succ(l, u) && r[u] == Succ(r, u);
    }
  }

  /** Every member of a cycle waits for someone, so it has an entry in the graph. */
  lemma CycleNodesInGraph(g: Graph, c: seq<TxId>)
    requires IsCycle(g, c)
    ensures forall i :: 0 <= i < |c| ==> c[i] in g
  {
    forall i | 0 <= i < |c|
      ensures c[i] in g
    {
      if i == 0 {
        assert c[|c| - 1] in Succ(g, c[0]);
      } else {
        assert c[i - 1] in Succ(g, c[i]);
      }
    }
  }

  /**
   * A failure voids the commit of every transaction that had accessed the
   * site before it failed.
   */
  lemma FailVoidsCommit(t: Transaction, status: map<int, SiteStatus>, s: int, ticks: int)
    requires s in t.accessedSites && t.accessedSites[s] < ticks
    ensures !Survived(t, status[s := SiteStatus(Down, ticks)])
  {
    var status' := status[s := SiteStatus(Down, ticks)];
    assert s in status' && status'[s].lastDownTime > t.accessedSites[s];
  }

  // ---------------------------------------------------------------------------
  // Bookkeeping helpers of the coordinator
  // ---------------------------------------------------------------------------

  /** Records a first access to site `s` at tick `t`; a recorded access is kept. */
  function Touch(acc: map<int, int>, s: int, t: int): (r: map<int, int>)
    ensures forall u :: u in r <==> u in acc || u == s
    ensures forall u :: u in r ==> r[u] == if u in acc then acc[u] else t
  {
    if s in acc then acc else acc[s := t]
  }

  /** The registry after `tx` accessed site `s` at tick `t`. */
  function Touched(txs: map<TxId, Transaction>, tx: TxId, s: int, t: int): map<TxId, Transaction>
    requires tx in txs
  {
    txs[tx := txs[tx].(accessedSites := Touch(txs[tx].accessedSites, s, t))]
  }

  /** First accesses to each of the sites `ss` at tick `t`. */
  function TouchAll(acc: map<int, int>, ss: seq<int>, t: int): (r: map<int, int>)
    ensures forall u :: u in r <==> u in acc || u in ss
    ensures forall u :: u in r ==> r[u] == if u in acc then acc[u] else t
    decreases |ss|
  {
    if ss == [] then acc
    else
      assert ss == ss[..|ss| - 1] + [ss[|ss| - 1]];
      Touch(TouchAll(acc, ss[..|ss| - 1], t), ss[|ss| - 1], t)
  }

  /** The change updateBlockedInstrCnt makes to a waiting-instruction counter. */
  function CountDelta(suc: bool, isBlocked: bool): int
  {
    if !suc && !isBlocked then 1 else if suc && isBlocked then -1 else 0
  }

  /** The home site of an unreplicated variable. */
  function HomeSite(v: int): int
  {
    v % 10 + 1
  }

  /** The sites a write of `v` must lock: every up site for a replicated variable, else the up home site. */
  function Targets(status: map<int, SiteStatus>, v: int): set<int>
  {
    if v % 2 == 0 then UpSet(status)
    else if IsUp(status, HomeSite(v)) then {HomeSite(v)} else {}
  }

  /** The same sites in the order the write visits them. */
  function TargetList(status: map<int, SiteStatus>, v: int): seq<int>
  {
    if v % 2 == 0 then UpBelow(status, NumSites + 1)
    else if IsUp(status, HomeSite(v)) then [HomeSite(v)] else []
  }

  /**
   * How a successful read of `v` by the transaction `t` was served at
   * `site`: from the snapshot taken at its begin time when it is read-only,
   * from its own buffered write when it has one, and otherwise under a
   * read lock taken at a site where the variable is readable.
   */
  ghost predicate Served(sts: map<int, SiteState>, sts': map<int, SiteState>, status: map<int, SiteStatus>,
                         t: Transaction, v: int, site: int, value: int)
  {
    && site in sts && IsUp(status, site) && Hosts(site, v)
    && (v % 2 == 1 ==> site == HomeSite(v))
    && ValidSite(sts[site]) && v in sts[site].data
    && if t.isReadOnly then
         sts' == sts && ReadSnapshot(sts[site], v, t.beginTime) == Some(value)
       else if Txn.Read(t, v).Some? then
         sts' == sts && Txn.Read(t, v) == Some(value)
       else
         && (v % 2 == 0 ==> Get(sts[site].readable, v) == Some(true))
         && value == sts[site].data[v]
         && sts' == sts[site := Acquire(sts[site], t.name, v, LockKind.Read).0]
         && ReadLockedBy(sts'[site], v, t.name)
  }

  lemma ReleasedAtStep(sts: map<int, SiteState>, tx: TxId, done: set<int>, s: int)
    requires AllValid(sts) && s in sts && s !in done
    ensures ReleasedAt(sts, tx, done)[s := Release(sts[s], tx)] == ReleasedAt(sts, tx, done + {s})
  {
  }

  /** One more site of the ascending walk over the up sites. */
  lemma AcquiredStep(sts: map<int, SiteState>, status: map<int, SiteStatus>, tx: TxId, v: int, s: int)
    requires AllValid(sts) && s in sts && 1 <= s
    ensures UpBelow(status, s + 1) == if IsUp(status, s) then UpBelow(status, s) + [s] else UpBelow(status, s)
    ensures
      var pre := AcquiredAt(sts, UpBefore(status, s), tx, v);
      AcquiredAt(sts, UpBefore(status, s + 1), tx, v) == if IsUp(status, s) then pre[s := Acquire(pre[s], tx, v, LockKind.Write).0] else pre
  {
    var pre, post := AcquiredAt(sts, UpBefore(status, s), tx, v), AcquiredAt(sts, UpBefore(status, s + 1), tx, v);
    assert s !in UpBefore(status, s) && pre[s] == sts[s];
    if IsUp(status, s) {
      assert UpBefore(status, s + 1) == UpBefore(status, s) + {s};
      assert post == pre[s := Acquire(pre[s], tx, v, LockKind.Write).0];
    } else {
      assert UpBefore(status, s + 1) == UpBefore(status, s);
    }
  }

  lemma PendedStep(sts: map<int, SiteState>, status: map<int, SiteStatus>, tx: TxId, v: int, s: int)
    requires AllValid(sts) && s in sts && 1 <= s
    ensures
      var pre := PendedAt(sts, UpBefore(status, s), tx, v);
      PendedAt(sts, UpBefore(status, s + 1), tx, v) == if IsUp(status, s) then pre[s := PendWrite(pre[s], tx, v).0] else pre
  {
    var pre, post := PendedAt(sts, UpBefore(status, s), tx, v), PendedAt(sts, UpBefore(status, s + 1), tx, v);
    assert s !in UpBefore(status, s) && pre[s] == sts[s];
    if IsUp(status, s) {
      assert UpBefore(status, s + 1) == UpBefore(status, s) + {s};
      assert post == pre[s := PendWrite(pre[s], tx, v).0];
    } else {
      assert UpBefore(status, s + 1) == UpBefore(status, s);
    }
  }

  /** Below `NumSites + 1` every up site is counted. */
  lemma UpBeforeAll(status: map<int, SiteStatus>)
    requires status.Keys == SiteIds()
    ensures UpBefore(status, NumSites + 1) == UpSet(status)
  {
    assert forall u :: u in UpSet(status) ==> u in SiteIds();
  }

  /** Taking write locks or placing markers keeps every write lock already held. */
  lemma AcquiredKeeps(sts: map<int, SiteState>, ss: set<int>, tx: TxId, v: int, live: set<TxId>)
    requires AllValid(sts)
    ensures KeepsFor(sts, AcquiredAt(sts, ss, tx, v), live)
  {
    AcquiredAtFacts(sts, ss, tx, v);
  }

  /** A different tick leaves the invariant intact as long as every record fits it. */
  lemma InvTicks(sts: map<int, SiteState>, status: map<int, SiteStatus>, txs: map<TxId, Transaction>, g: Graph, ticks: int, ticks': int)
    requires Inv(sts, status, txs, g, ticks) && ticks' >= 0
    requires forall n :: n in txs ==> TxOk(n, txs[n], ticks')
    ensures Inv(sts, status, txs, g, ticks')
  {
  }

  /**
   * A failure at the start of a tick: the site loses its locks, but every
   * buffered write there was recorded at an earlier tick, so it no longer
   * needs them.
   */
  lemma InvFail(sts: map<int, SiteState>, status: map<int, SiteStatus>, txs: map<TxId, Transaction>, g: Graph, ticks: int, s: int)
    requires Inv(sts, status, txs, g, ticks) && IsSiteId(s) && Fresh(txs, ticks)
    ensures Inv(sts[s := Failed(sts[s])], status[s := SiteStatus(Down, ticks)], txs, g, ticks)
  {
    var sts', status' := sts[s := Failed(sts[s])], status[s := SiteStatus(Down, ticks)];
    forall n | n in txs
      ensures Holds(sts', status', n, txs[n])
    {
      var t := txs[n];
      forall i, u | && 0 <= i < |t.writes| && u in t.writes[i].sites && u in t.accessedSites && u in status' && u in sts'
                    && status'[u].lastDownTime <= t.accessedSites[u]
        ensures WriteLockedBy(sts'[u], t.writes[i].varId, n)
      {
        assert u != s;
      }
    }
  }

  /** The record `t` with one more buffered write, at sites `ws` first accessed now or earlier. */
  function Appended(t: Transaction, v: int, val: int, ws: seq<int>, ticks: int): Transaction
  {
    t.(writes := t.writes + [Txn.WriteRecord(v, val, ws)], accessedSites := TouchAll(t.accessedSites, ws, ticks))
  }

  lemma AppendedOk(sts: map<int, SiteState>, status: map<int, SiteStatus>, tx: TxId, t: Transaction, v: int, val: int, ws: seq<int>, ticks: int)
    requires TxOk(tx, t.(accessedSites := TouchAll(t.accessedSites, ws, ticks)), ticks)
    requires Holds(sts, status, tx, t.(accessedSites := TouchAll(t.accessedSites, ws, ticks)))
    requires 1 <= v <= NumVars
    requires forall s :: s in ws && s in sts ==> WriteLockedBy(sts[s], v, tx)
    ensures TxOk(tx, Appended(t, v, val, ws, ticks), ticks) && Holds(sts, status, tx, Appended(t, v, val, ws, ticks))
  {
    var t1 := t.(accessedSites := TouchAll(t.accessedSites, ws, ticks));
    var t2 := Appended(t, v, val, ws, ticks);
    assert t2 == t1.(writes := t1.writes + [Txn.WriteRecord(v, val, ws)]);
    forall i, s | 0 <= i < |t2.writes| && s in t2.writes[i].sites
      ensures s in t2.accessedSites
    {
      if i < |t1.writes| {
        assert t2.writes[i] == t1.writes[i];
      }
    }
    forall i, s | && 0 <= i < |t2.writes| && s in t2.writes[i].sites && s in t2.accessedSites && s in status && s in sts
                  && status[s].lastDownTime <= t2.accessedSites[s]
      ensures WriteLockedBy(sts[s], t2.writes[i].varId, tx)
    {
      if i < |t1.writes| {
        assert t2.writes[i] == t1.writes[i];
      }
    }
  }

  /** Replacing one record by another that fits keeps the invariant. */
  lemma InvUpdate(sts: map<int, SiteState>, status: map<int, SiteStatus>, txs: map<TxId, Transaction>, g: Graph, ticks: int,
                  tx: TxId, t: Transaction)
    requires Inv(sts, status, txs, g, ticks) && tx in txs
    requires TxOk(tx, t, ticks) && Holds(sts, status, tx, t)
    ensures Inv(sts, status, txs[tx := t], g, ticks)
  {
  }

  /** The clock moves on: every record fits the new tick and none has an access at it yet. */
  lemma InvNextTick(sts: map<int, SiteState>, status: map<int, SiteStatus>, txs: map<TxId, Transaction>, g: Graph, ticks: int)
    requires Inv(sts, status, txs, g, ticks)
    ensures Inv(sts, status, txs, g, ticks + 1) && Fresh(txs, ticks + 1)
  {
    forall n | n in txs
      ensures TxOk(n, txs[n], ticks + 1)
    {
    }
    InvTicks(sts, status, txs, g, ticks, ticks + 1);
  }

  /**
   * A tick given back: records that already fitted the earlier tick, and
   * of which the registry only lost some, still fit it.
   */
  lemma InvSameTick(sts: map<int, SiteState>, status: map<int, SiteStatus>, txs: map<TxId, Transaction>,
                    txs': map<TxId, Transaction>, g: Graph, ticks: int)
    requires Inv(sts, status, txs', g, ticks + 1) && ticks >= 0
    requires forall n :: n in txs ==> TxOk(n, txs[n], ticks)
    requires forall n :: n in txs' ==> n in txs && txs'[n] == txs[n]
    ensures Inv(sts, status, txs', g, ticks)
  {
    InvTicks(sts, status, txs', g, ticks + 1, ticks);
  }

  /** Snapshots change no lock, so a read-only transaction can start after them. */
  lemma InvSnapshot(sts: map<int, SiteState>, status: map<int, SiteStatus>, txs: map<TxId, Transaction>, g: Graph, ticks: int, tx: TxId)
    requires Inv(sts, status, txs, g, ticks)
    ensures Inv(SnapshotAll(sts, ticks), status, txs[tx := Txn.NewTransaction(tx, ticks, true)], g, ticks)
  {
    var sts' := SnapshotAll(sts, ticks);
    assert forall s :: s in sts ==> sts'[s].locks == sts[s].locks && sts'[s].data == sts[s].data;
    InvStep(sts, status, txs, g, ticks, sts', status, txs[tx := Txn.NewTransaction(tx, ticks, true)], g, ticks);
  }

  /** A recovery changes neither locks nor failure times. */
  lemma InvRecover(sts: map<int, SiteState>, status: map<int, SiteStatus>, txs: map<TxId, Transaction>, g: Graph, ticks: int, s: int)
    requires Inv(sts, status, txs, g, ticks) && IsSiteId(s)
    ensures Inv(sts[s := Recovered(sts[s])], status[s := SiteStatus(Up, status[s].lastDownTime)], txs, g, ticks)
  {
    var sts' := sts[s := Recovered(sts[s])];
    assert KeepsFor(sts, sts', txs.Keys);
    InvStep(sts, status, txs, g, ticks, sts', status[s := SiteStatus(Up, status[s].lastDownTime)], txs, g, ticks);
  }

  /** A write admitted at the sites `ws`, whose write locks `tx` now holds. */
  lemma InvWrite(sts: map<int, SiteState>, status: map<int, SiteStatus>, txs: map<TxId, Transaction>, g: Graph, ticks: int,
                 sts': map<int, SiteState>, tx: TxId, v: int, val: int, ws: seq<int>)
    requires Inv(sts, status, txs, g, ticks)
    requires sts'.Keys == sts.Keys && (forall s :: s in sts' ==> SiteOk(s, sts'[s])) && KeepsFor(sts, sts', txs.Keys)
    requires tx in txs && 1 <= v <= NumVars
    requires forall s :: s in ws ==> IsSiteId(s) && WriteLockedBy(sts'[s], v, tx)
    ensures Inv(sts', status, txs[tx := Appended(txs[tx], v, val, ws, ticks)], g, ticks)
  {
    var t := txs[tx];
    var t1 := t.(accessedSites := TouchAll(t.accessedSites, ws, ticks));
    var txs1 := txs[tx := t1];
    assert Extends(t, t1, ticks);
    InvStep(sts, status, txs, g, ticks, sts', status, txs1, g, ticks);
    assert txs1[tx] == t1;
    AppendedOk(sts', status, tx, t, v, val, ws, ticks);
    InvUpdate(sts', status, txs1, g, ticks, tx, Appended(t, v, val, ws, ticks));
    assert txs1[tx := Appended(t, v, val, ws, ticks)] == txs[tx := Appended(t, v, val, ws, ticks)];
  }

  /** Changing one site in a way that keeps its write locks keeps everyone's. */
  lemma KeepsAt(sts: map<int, SiteState>, s: int, st: SiteState, live: set<TxId>)
    requires s in sts && KeepsWriteLocks(sts[s], st)
    ensures KeepsFor(sts, sts[s := st], live)
  {
  }

  /** Sites whose tables have the same keys as before still host their catalog. */
  lemma SitesOk(sts: map<int, SiteState>, sts': map<int, SiteState>)
    requires forall s :: s in sts ==> SiteOk(s, sts[s])
    requires sts'.Keys == sts.Keys && AllValid(sts')
    requires forall s :: s in sts ==> sts'[s].data.Keys == sts[s].data.Keys
    ensures forall s :: s in sts' ==> SiteOk(s, sts'[s])
  {
  }

  /**
   * The end of a transaction: whatever the sites now hold, every other
   * transaction keeps its write locks, and its record and its graph node
   * are gone.
   */
  lemma InvEnd(sts: map<int, SiteState>, status: map<int, SiteStatus>, txs: map<TxId, Transaction>, g: Graph, ticks: int,
               tx: TxId, commit: bool, sts': map<int, SiteState>)
    requires Inv(sts, status, txs, g, ticks) && tx in txs
    requires sts' == ReleasedAt(if commit then Commit(sts, tx, txs[tx].writes) else sts, tx, txs[tx].accessedSites.Keys)
    ensures Inv(sts', status, txs - {tx}, RemovedNode(g, tx), ticks)
  {
    var t := txs[tx];
    if commit {
      var c := Commit(sts, tx, t.writes);
      assert forall s, v, x :: s in sts && WriteLockedBy(sts[s], v, x) ==> WriteLockedBy(c[s], v, x);
    }
    SitesOk(sts, sts');
    InvStep(sts, status, txs, g, ticks, sts', status, txs - {tx}, RemovedNode(g, tx), ticks);
  }

  /**
   * A served read: at most a read lock more at one site, the access recorded
   * there, and the wait-for edges of any refusal.
   */
  lemma InvRead(sts: map<int, SiteState>, sts': map<int, SiteState>, status: map<int, SiteStatus>, txs: map<TxId, Transaction>,
                g: Graph, ticks: int, tx: TxId, v: int, site: int, value: int, blockers: set<TxId>)
    requires Inv(sts, status, txs, g, ticks) && tx in txs
    requires Served(sts, sts', status, txs[tx], v, site, value)
    ensures Inv(sts', status, Touched(txs, tx, site, ticks), WaitsAdded(g, tx, blockers), ticks)
  {
    var txs' := Touched(txs, tx, site, ticks);
    ServedKeeps(sts, sts', status, txs[tx], v, site, value, txs'.Keys);
    TouchedExtends(txs, tx, site, ticks);
    InvStep(sts, status, txs, g, ticks, sts', status, txs', WaitsAdded(g, tx, blockers), ticks);
  }

  /** A served read changes at most one site, and only by a read lock. */
  lemma ServedKeeps(sts: map<int, SiteState>, sts': map<int, SiteState>, status: map<int, SiteStatus>,
                    t: Transaction, v: int, site: int, value: int, live: set<TxId>)
    requires forall s :: s in sts ==> SiteOk(s, sts[s])
    requires Served(sts, sts', status, t, v, site, value)
    ensures sts'.Keys == sts.Keys && (forall s :: s in sts' ==> SiteOk(s, sts'[s])) && KeepsFor(sts, sts', live)
  {
    assert sts' == sts[site := sts'[site]];
    KeepsAt(sts, site, sts'[site], live);
  }

  /** Recording an access at a site of the catalog, now, only extends the record. */
  lemma TouchedExtends(txs: map<TxId, Transaction>, tx: TxId, site: int, ticks: int)
    requires tx in txs && IsSiteId(site)
    requires forall n :: n in txs ==> TxOk(n, txs[n], ticks)
    ensures forall n :: n in Touched(txs, tx, site, ticks) ==> n in txs && Extends(txs[n], Touched(txs, tx, site, ticks)[n], ticks)
  {
  }

  /** Wait-for edges from a live transaction keep the graph within the registry. */
  lemma InvWaits(sts: map<int, SiteState>, status: map<int, SiteStatus>, txs: map<TxId, Transaction>, g: Graph, ticks: int,
                 tx: TxId, blockers: set<TxId>)
    requires Inv(sts, status, txs, g, ticks) && tx in txs
    ensures Inv(sts, status, txs, WaitsAdded(g, tx, blockers), ticks)
  {
  }

  /** Site `s` would grant `tx` the write lock on `v`. */
  predicate Grants(sts: map<int, SiteState>, s: int, tx: TxId, v: int)
  {
    s in sts && CheckLockAt(sts[s], tx, v, LockKind.Write) == {}
  }

  /** The up sites below `i` that grant `tx` the write lock on `v`. */
  function Granting(sts: map<int, SiteState>, status: map<int, SiteStatus>, tx: TxId, v: int, i: int): set<int>
  {
    set u | 1 <= u < i && IsUp(status, u) && Grants(sts, u, tx, v)
  }

  lemma GrantingStep(sts: map<int, SiteState>, status: map<int, SiteStatus>, tx: TxId, v: int, i: int)
    requires 1 <= i
    ensures i !in Granting(sts, status, tx, v, i)
    ensures Granting(sts, status, tx, v, i + 1) ==
      if IsUp(status, i) && Grants(sts, i, tx, v) then Granting(sts, status, tx, v, i) + {i} else Granting(sts, status, tx, v, i)
    ensures UpBefore(status, i + 1) == if IsUp(status, i) then UpBefore(status, i) + {i} else UpBefore(status, i)
  {
  }

  /**
   * The first pass of a replicated write over the sites below `i`: the
   * number of up sites that grant the write lock, and the blockers and id of
   * the last up site that refuses ({} and -1 when none does).
   */
  function CheckPass(sts: map<int, SiteState>, status: map<int, SiteStatus>, tx: TxId, v: int, i: int): (nat, set<TxId>, int)
    requires status.Keys <= sts.Keys
    decreases i
  {
    if i <= 1 then (0, {}, -1)
    else
      var pre := CheckPass(sts, status, tx, v, i - 1);
      var s := i - 1;
      if !IsUp(status, s) then pre
      else
        var blockers := CheckLockAt(sts[s], tx, v, LockKind.Write);
        if blockers == {} then (pre.0 + 1, pre.1, pre.2) else (pre.0, blockers, s)
  }

  /** What the first pass finds: the grants counted, and the last refusal. */
  lemma CheckPassMeaning(sts: map<int, SiteState>, status: map<int, SiteStatus>, tx: TxId, v: int, i: int)
    requires status.Keys <= sts.Keys && 1 <= i
    ensures CheckPass(sts, status, tx, v, i).0 == |Granting(sts, status, tx, v, i)|
    ensures CheckPass(sts, status, tx, v, i).1 == {} <==> Granting(sts, status, tx, v, i) == UpBefore(status, i)
    ensures var r := CheckPass(sts, status, tx, v, i);
      r.1 != {} ==>
        && 1 <= r.2 < i && IsUp(status, r.2) && r.1 == CheckLockAt(sts[r.2], tx, v, LockKind.Write)
        && forall u :: r.2 < u < i && IsUp(status, u) ==> Grants(sts, u, tx, v)
  {
    CheckPassCount(sts, status, tx, v, i);
    CheckPassBlocked(sts, status, tx, v, i);
    CheckPassLast(sts, status, tx, v, i);
  }

  lemma {:induction false} CheckPassCount(sts: map<int, SiteState>, status: map<int, SiteStatus>, tx: TxId, v: int, i: int)
    requires status.Keys <= sts.Keys && 1 <= i
    ensures CheckPass(sts, status, tx, v, i).0 == |Granting(sts, status, tx, v, i)|
    decreases i
  {
    if i > 1 {
      CheckPassCount(sts, status, tx, v, i - 1);
      GrantingStep(sts, status, tx, v, i - 1);
    }
  }

  lemma {:induction false} CheckPassBlocked(sts: map<int, SiteState>, status: map<int, SiteStatus>, tx: TxId, v: int, i: int)
    requires status.Keys <= sts.Keys && 1 <= i
    ensures CheckPass(sts, status, tx, v, i).1 == {} <==> Granting(sts, status, tx, v, i) == UpBefore(status, i)
    decreases i
  {
    if i > 1 {
      CheckPassBlocked(sts, status, tx, v, i - 1);
      GrantingStep(sts, status, tx, v, i - 1);
      var s := i - 1;
      if IsUp(status, s) && !Grants(sts, s, tx, v) {
        assert s in UpBefore(status, i) && s !in Granting(sts, status, tx, v, i);
      }
      if CheckPass(sts, status, tx, v, i).1 == {} {
        assert CheckPass(sts, status, tx, v, i - 1).1 == {};
      } else if !IsUp(status, s) || Grants(sts, s, tx, v) {
        var g := Granting(sts, status, tx, v, i - 1);
        assert g != UpBefore(status, i - 1);
        assert g <= UpBefore(status, i - 1);
        var u :| u in UpBefore(status, i - 1) && u !in g;
        assert u in UpBefore(status, i) && u !in Granting(sts, status, tx, v, i);
      }
    }
  }

  lemma {:induction false} CheckPassLast(sts: map<int, SiteState>, status: map<int, SiteStatus>, tx: TxId, v: int, i: int)
    requires status.Keys <= sts.Keys && 1 <= i
    ensures var r := CheckPass(sts, status, tx, v, i);
      r.1 != {} ==>
        && 1 <= r.2 < i && IsUp(status, r.2) && r.1 == CheckLockAt(sts[r.2], tx, v, LockKind.Write)
        && forall u :: r.2 < u < i && IsUp(status, u) ==> Grants(sts, u, tx, v)
    decreases i
  {
    if i > 1 {
      CheckPassLast(sts, status, tx, v, i - 1);
    }
  }

  /** Counting the grants decides whether every up site grants. */
  lemma GrantingAll(sts: map<int, SiteState>, status: map<int, SiteStatus>, tx: TxId, v: int)
    requires status.Keys == SiteIds()
    ensures UpBefore(status, NumSites + 1) == UpSet(status)
    ensures Granting(sts, status, tx, v, NumSites + 1) <= UpSet(status)
    ensures |Granting(sts, status, tx, v, NumSites + 1)| == |UpSet(status)| <==>
      forall s :: s in UpSet(status) ==> Grants(sts, s, tx, v)
    ensures Granting(sts, status, tx, v, NumSites + 1) == UpSet(status) <==>
      forall s :: s in UpSet(status) ==> Grants(sts, s, tx, v)
  {
    var g, up := Granting(sts, status, tx, v, NumSites + 1), UpSet(status);
    assert forall u :: u in up ==> u in SiteIds();
    assert forall u :: u in UpBefore(status, NumSites + 1) <==> u in up;
    assert g <= up;
    SubsetCard(g, up);
    if forall s :: s in up ==> Grants(sts, s, tx, v) {
      assert up <= g;
      assert g == up;
    } else {
      var s :| s in up && !Grants(sts, s, tx, v);
      assert s !in g && g != up;
    }
  }

  /** Taking the write lock at a single site is an update of that site alone. */
  lemma AcquiredOne(sts: map<int, SiteState>, s: int, tx: TxId, v: int)
    requires AllValid(sts) && s in sts
    ensures AcquiredAt(sts, {s}, tx, v) == sts[s := Acquire(sts[s], tx, v, LockKind.Write).0]
  {
  }

  /**
   * An admitted write: every target site granted the write lock, so `tx`
   * now holds it there, and the record lists exactly those sites.
   */
  lemma InvAcquired(sts: map<int, SiteState>, status: map<int, SiteStatus>, txs: map<TxId, Transaction>, g: Graph, ticks: int,
                    tx: TxId, v: int, val: int)
    requires Inv(sts, status, txs, g, ticks) && tx in txs && 1 <= v <= NumVars
    requires forall s :: s in Targets(status, v) ==> Grants(sts, s, tx, v)
    ensures Inv(AcquiredAt(sts, Targets(status, v), tx, v), status,
                txs[tx := Appended(txs[tx], v, val, TargetList(status, v), ticks)], g, ticks)
  {
    var sts' := AcquiredAt(sts, Targets(status, v), tx, v);
    AcquiredKeeps(sts, Targets(status, v), tx, v, txs.Keys);
    AcquiredAtFacts(sts, Targets(status, v), tx, v);
    SitesOk(sts, sts');
    forall s | s in TargetList(status, v)
      ensures IsSiteId(s) && WriteLockedBy(sts'[s], v, tx)
    {
      assert s in Targets(status, v) && Hosts(s, v);
    }
    InvWrite(sts, status, txs, g, ticks, sts', tx, v, val, TargetList(status, v));
  }

  /** A refused write leaves at most pending markers behind, and wait-for edges. */
  lemma InvRefused(sts: map<int, SiteState>, status: map<int, SiteStatus>, txs: map<TxId, Transaction>, g: Graph, ticks: int,
                   tx: TxId, v: int, pended: bool, blockers: set<TxId>)
    requires Inv(sts, status, txs, g, ticks) && tx in txs
    ensures Inv(if pended then PendedAt(sts, UpSet(status), tx, v) else sts, status, txs, WaitsAdded(g, tx, blockers), ticks)
  {
    var sts' := if pended then PendedAt(sts, UpSet(status), tx, v) else sts;
    PendedAtFacts(sts, UpSet(status), tx, v);
    SitesOk(sts, sts');
    InvStep(sts, status, txs, g, ticks, sts', status, txs, WaitsAdded(g, tx, blockers), ticks);
  }

  /** The site tables every coordinator starts from: each site as its DataManager is built. */
  function InitialSites(): (r: map<int, SiteState>)
    ensures r.Keys == SiteIds()
    ensures forall s :: s in r ==> SiteOk(s, r[s]) && r[s].locks == map[]
  {
    map s | s in SiteIds() :: InitialState(s)
  }

  // ---------------------------------------------------------------------------
  // What one instruction does, from the tables, registry and wait-for graph
  // before it (`sts`, `txs`, `g`) to those after it (`sts'`, `txs'`, `g'`)
  // ---------------------------------------------------------------------------

  /**
   * read of `v` by `tx`: an unknown transaction succeeds with nothing
   * changed. Otherwise the read succeeds exactly when a value is served,
   * and only then are the tables and the first access recorded. A read
   * served from the transaction's own buffered write needs only a copy site
   * that is up, and a read of an odd variable succeeds exactly when the home
   * site is up and grants the read lock. Either way the transaction comes to
   * wait for every other holder at the refusing site.
   */
  ghost predicate ReadDone(sts: map<int, SiteState>, sts': map<int, SiteState>, status: map<int, SiteStatus>,
                           txs: map<TxId, Transaction>, txs': map<TxId, Transaction>, g: Graph, g': Graph,
                           tx: TxId, v: int, ticks: int,
                           ok: bool, value: Option<int>, site: int, blocked: set<TxId>, blockSite: int)
  {
    && (tx !in txs ==> ok && value.None? && txs' == txs && sts' == sts && g' == g)
    && (tx in txs ==> (ok <==> value.Some?) && g' == WaitsAdded(g, tx, blocked))
    && (tx in txs && !ok ==> txs' == txs && sts' == sts)
    && (tx in txs && ok ==> Served(sts, sts', status, txs[tx], v, site, value.value) && txs' == Touched(txs, tx, site, ticks))
    && (tx in txs && !txs[tx].isReadOnly && Txn.Read(txs[tx], v).Some? ==>
          (ok <==> if v % 2 == 0 then UpSet(status) != {} else IsUp(status, HomeSite(v))))
    && (tx in txs && !txs[tx].isReadOnly && Txn.Read(txs[tx], v).None? && v % 2 == 1 ==>
          (ok <==> IsUp(status, HomeSite(v)) && HomeSite(v) in sts && CheckLockAt(sts[HomeSite(v)], tx, v, LockKind.Read) == {}))
    && (blocked != {} ==>
          && blockSite in sts && IsUp(status, blockSite) && Hosts(blockSite, v)
          && blocked == CheckLockAt(sts[blockSite], tx, v, LockKind.Read))
  }

  /**
   * write of `val` to `v` by `tx`: an unknown transaction succeeds with
   * nothing changed. Otherwise the write is admitted exactly when some
   * target site is up and every one grants the write lock. An admitted write
   * takes the locks and buffers the record, and no value changes before end.
   * A refused write leaves only pending-write markers (for a replicated
   * variable) and wait-for edges to the blockers of the last refusing site.
   */
  ghost predicate WriteDone(sts: map<int, SiteState>, sts': map<int, SiteState>, status: map<int, SiteStatus>,
                            txs: map<TxId, Transaction>, txs': map<TxId, Transaction>, g: Graph, g': Graph,
                            tx: TxId, v: int, val: int, ticks: int,
                            ok: bool, blocked: set<TxId>, blockSite: int)
  {
    && AllValid(sts)
    && (tx !in txs ==> ok && txs' == txs && sts' == sts && g' == g)
    && (tx in txs ==> (ok <==> Targets(status, v) != {} && forall s :: s in Targets(status, v) ==> Grants(sts, s, tx, v)))
    && (tx in txs && ok ==>
          && sts' == AcquiredAt(sts, Targets(status, v), tx, v)
          && txs' == txs[tx := Appended(txs[tx], v, val, TargetList(status, v), ticks)]
          && g' == g)
    && (tx in txs && !ok ==>
          && txs' == txs
          && sts' == (if v % 2 == 0 && UpSet(status) != {} then PendedAt(sts, UpSet(status), tx, v) else sts)
          && g' == WaitsAdded(g, tx, blocked)
          && (Targets(status, v) != {} ==> blocked != {}))
    && (blocked != {} ==>
          && blockSite in sts && IsUp(status, blockSite) && Hosts(blockSite, v)
          && blocked == CheckLockAt(sts[blockSite], tx, v, LockKind.Write))
    && (blocked != {} && v % 2 == 0 ==>
          forall u :: blockSite < u <= NumSites && IsUp(status, u) ==> Grants(sts, u, tx, v))
  }

  /**
   * end of `tx`: an unknown transaction ends at once with nothing changed,
   * and one with waiting instructions cannot end yet. Otherwise it commits
   * exactly when it survived validation. Either way it releases its locks
   * at every site it accessed and leaves the registry and the wait-for
   * graph.
   */
  ghost predicate EndDone(sts: map<int, SiteState>, sts': map<int, SiteState>, status: map<int, SiteStatus>,
                          txs: map<TxId, Transaction>, txs': map<TxId, Transaction>, g: Graph, g': Graph,
                          tx: TxId, ok: bool, committed: bool)
  {
    && AllValid(sts)
    && (ok <==> tx !in txs || txs[tx].blockedInstrCnt <= 0)
    && ((tx !in txs || !ok) ==> !committed && sts' == sts && txs' == txs && g' == g)
    && (tx in txs && ok ==>
          && (committed <==> Survived(txs[tx], status))
          && sts' == ReleasedAt(if committed then Commit(sts, tx, txs[tx].writes) else sts, tx, txs[tx].accessedSites.Keys)
          && txs' == txs - {tx}
          && g' == RemovedNode(g, tx))
  }

  /**
   * `y`, the member of the cycle `cycle` in `g` with the latest begin time,
   * is aborted: its locks are released at the sites it accessed, its
   * instructions leave the buffer, and it leaves the wait-for graph and the
   * registry.
   */
  ghost predicate YoungestAborted(sts: map<int, SiteState>, sts': map<int, SiteState>,
                                  txs: map<TxId, Transaction>, txs': map<TxId, Transaction>,
                                  buf: seq<Instruction>, buf': seq<Instruction>, g: Graph, g': Graph,
                                  y: TxId, cycle: seq<TxId>)
  {
    && AllValid(sts)
    && IsCycle(g, cycle) && y in cycle && y in txs
    && (forall i :: 0 <= i < |cycle| ==> cycle[i] in txs)
    && (forall i :: 0 <= i < |cycle| ==> txs[cycle[i]].beginTime <= txs[y].beginTime)
    && sts' == ReleasedAt(sts, y, txs[y].accessedSites.Keys)
    && buf' == Without(buf, y)
    && g' == RemovedNode(g, y)
    && txs' == txs - {y}
  }

  /** The deadlock check's outcome: with no cycle in `g` nothing changes, otherwise its youngest member is aborted. */
  ghost predicate DeadlockBroken(sts: map<int, SiteState>, sts': map<int, SiteState>,
                                 txs: map<TxId, Transaction>, txs': map<TxId, Transaction>,
                                 buf: seq<Instruction>, buf': seq<Instruction>, g: Graph, g': Graph,
                                 victim: Option<TxId>, cycle: seq<TxId>)
  {
    && (victim.None? <==> !HasCycle(g))
    && (victim.None? ==> sts' == sts && txs' == txs && buf' == buf && g' == g)
    && (victim.Some? ==> YoungestAborted(sts, sts', txs, txs', buf, buf', g, g', victim.value, cycle))
  }

  /** The instructions that succeed whenever they run: they wait for nothing. */
  predicate AlwaysSucceeds(ins: Instruction)
  {
    ins.Begin? || ins.Fail? || ins.Recover? || ins.Dump? || ins.QueryState?
  }

  /** The registry after updateBlockedInstrCnt moved the waiting-instruction count of `tx` by `delta`. */
  function Counted(txs: map<TxId, Transaction>, tx: TxId, delta: int): map<TxId, Transaction>
  {
    if tx in txs then txs[tx := txs[tx].(blockedInstrCnt := txs[tx].blockedInstrCnt + delta)] else txs
  }

  /** Moving a waiting-instruction count keeps the invariant, and keeps the registry fresh. */
  lemma InvCounted(sts: map<int, SiteState>, status: map<int, SiteStatus>, txs: map<TxId, Transaction>, g: Graph, ticks: int,
                   tx: TxId, delta: int)
    requires Inv(sts, status, txs, g, ticks)
    ensures Inv(sts, status, Counted(txs, tx, delta), g, ticks)
    ensures Fresh(txs, ticks) ==> Fresh(Counted(txs, tx, delta), ticks)
  {
    if tx in txs {
      InvUpdate(sts, status, txs, g, ticks, tx, txs[tx].(blockedInstrCnt := txs[tx].blockedInstrCnt + delta));
    }
  }

  /** The update updateBlockedInstrCnt performs, read as `Counted`. */
  lemma CountedIs(txs: map<TxId, Transaction>, tx: TxId, delta: int, txs': map<TxId, Transaction>)
    requires tx !in txs ==> txs' == txs
    requires tx in txs ==> txs' == txs[tx := txs[tx].(blockedInstrCnt := txs[tx].blockedInstrCnt + delta)]
    ensures txs' == Counted(txs, tx, delta)
  {
  }

  // ---------------------------------------------------------------------------
  // The coordinator
  // ---------------------------------------------------------------------------

  /**
   * The transaction manager. It holds each site's tables (`sites`, one
   * DataManager per site id) and applies to them the operations the
   * DataManager methods perform.
   */
  class TransactionManager {
    var sites: map<int, SiteState>
    const wfg: WaitForGraph
    var transactions: map<TxId, Transaction>
    var status: map<int, SiteStatus>
    var buffer: seq<Instruction>
    var ticks: int
    var lastSiteID: int

    ghost predicate Valid()
      reads this`sites, this`transactions, this`status, this`ticks, this`lastSiteID, wfg`graph
    {
      Inv(sites, status, transactions, wfg.graph, ticks) && 1 <= lastSiteID <= NumSites
    }

    /**
     * A coordinator over the given sites: every site up since tick 0, no
     * transaction, an empty buffer, and the round-robin cursor on the last site.
     */
    constructor (dms: map<int, SiteState>)
      requires dms.Keys == SiteIds()
      requires forall s :: s in dms ==> SiteOk(s, dms[s])
      ensures Valid() && fresh(wfg)
      ensures sites == dms && transactions == map[] && buffer == [] && ticks == 0
      ensures status == map s | s in SiteIds() :: SiteStatus(Up, 0)
      ensures lastSiteID == NumSites && wfg.graph == map[]
    {
      var table := AllUp(dms.Keys, 0);
      ticks := 0;
      sites := dms;
      transactions := map[];
      buffer := [];
      SiteIdsCard();
      lastSiteID := |dms|;
      wfg := new WaitForGraph();
      status := table;
    }

    /** The initial status table: every site of `ids` up since tick `t`. */
    static method AllUp(ids: set<int>, t: int) returns (table: map<int, SiteStatus>)
      ensures table == map s | s in ids :: SiteStatus(Up, t)
    {
      table := map[];
      var keys := ids;
      while keys != {}
        invariant keys <= ids
        invariant table == map s | s in ids - keys :: SiteStatus(Up, t)
        decreases keys
      {
        var s := Choose(keys);
        table := table[s := SiteStatus(Up, t)];
        keys := keys - {s};
      }
    }

    /** Installs new site tables and a new registry that keep the invariant. */
    method Install(sts: map<int, SiteState>, txs: map<TxId, Transaction>)
      requires Inv(sts, status, txs, wfg.graph, ticks) && 1 <= lastSiteID <= NumSites
      modifies this`sites, this`transactions
      ensures Valid() && sites == sts && transactions == txs
    {
      sites, transactions := sts, txs;
    }

    /** The wait-for edges from `tx` to each blocker other than itself. */
    method AddWaits(tx: TxId, blockers: set<TxId>)
      modifies wfg
      ensures wfg.graph == WaitsAdded(old(wfg.graph), tx, blockers)
    {
      var rest := blockers;
      while rest != {}
        invariant rest <= blockers
        invariant wfg.graph == WaitsAdded(old(wfg.graph), tx, blockers - rest)
        decreases rest
      {
        var b := Choose(rest);
        if b != tx {
          WaitsAddedStep(old(wfg.graph), tx, blockers - rest, b);
          wfg.AddEdge(tx, b);
        } else {
          assert (blockers - rest + {b}) - {tx} == (blockers - rest) - {tx};
        }
        assert blockers - (rest - {b}) == (blockers - rest) + {b};
        rest := rest - {b};
      }
      assert blockers - rest == blockers;
    }

    // --- helpers of the coordinator ----------------------------------------------

    /** getUpSiteCount: the number of sites whose status is up. */
    static method GetUpSiteCount(status: map<int, SiteStatus>) returns (n: nat)
      ensures n == |UpSet(status)|
    {
      n := 0;
      var keys := status.Keys;
      ghost var counted: set<int> := {};
      while keys != {}
        invariant keys <= status.Keys
        invariant counted == set s | s in status && s !in keys && status[s].status.Up?
        invariant n == |counted|
        decreases keys
      {
        var s := Choose(keys);
        keys := keys - {s};
        if status[s].status.Up? {
          assert s !in counted;
          counted := counted + {s};
          n := n + 1;
        }
      }
      assert counted == UpSet(status);
    }

    /**
     * findNextSite: moves the round-robin cursor forward, wrapping after the
     * last site, and stops at the first up site; after a full round of down
     * sites the cursor is back where it was and the answer is -1.
     */
    method FindNextSite() returns (r: int, ghost steps: nat)
      requires sites.Keys == SiteIds() && status.Keys == SiteIds() && 1 <= lastSiteID <= NumSites
      modifies this`lastSiteID
      ensures 1 <= lastSiteID <= NumSites
      ensures r == -1 <==> UpSet(status) == {}
      ensures r == -1 ==> lastSiteID == old(lastSiteID)
      ensures r != -1 ==>
        && r == lastSiteID && IsUp(status, r)
        && 1 <= steps <= NumSites && r == Advance(old(lastSiteID), steps)
        && forall j :: 1 <= j < steps ==> !IsUp(status, Advance(old(lastSiteID), j))
    {
      SiteIdsCard();
      var maxSiteID := |sites|;
      var cursor := lastSiteID;
      var tryCnt := 0;
      while tryCnt < maxSiteID
        invariant 0 <= tryCnt <= NumSites && 1 <= cursor <= NumSites
        invariant cursor == Advance(lastSiteID, tryCnt)
        invariant forall j :: 1 <= j <= tryCnt ==> !IsUp(status, Advance(lastSiteID, j))
      {
        cursor := cursor + 1;
        if cursor > maxSiteID {
          cursor := 1;
        }
        tryCnt := tryCnt + 1;
        if IsUp(status, cursor) {
          assert cursor in UpSet(status);
          lastSiteID := cursor;
          return cursor, tryCnt;
        }
      }
      AdvanceCovers(lastSiteID);
      return -1, 0;
    }

    /**
     * findYoungest: the member of the list with the latest begin time, the
     * first such in list order.
     */
    static method FindYoungest(txs: map<TxId, Transaction>, list: seq<TxId>) returns (name: string, ghost k: nat)
      requires |list| >= 1
      requires forall i :: 0 <= i < |list| ==> list[i] in txs && txs[list[i]].beginTime > IntMin
      ensures k < |list| && name == list[k]
      ensures forall i :: 0 <= i < |list| ==> txs[list[i]].beginTime <= txs[list[k]].beginTime
      ensures forall i :: 0 <= i < k ==> txs[list[i]].beginTime < txs[list[k]].beginTime
    {
      var maxBegin := IntMin;
      name, k := "", 0;
      var i := 0;
      while i < |list|
        invariant 0 <= i <= |list|
        invariant k <= i && (i == 0 ==> k == 0 && maxBegin == IntMin)
        invariant i > 0 ==> k < i && name == list[k] && maxBegin == txs[list[k]].beginTime
        invariant forall j :: 0 <= j < i ==> txs[list[j]].beginTime <= maxBegin
        invariant forall j :: 0 <= j < k ==> txs[list[j]].beginTime < maxBegin
      {
        if txs[list[i]].beginTime > maxBegin {
          maxBegin := txs[list[i]].beginTime;
          name, k := list[i], i;
        }
        i := i + 1;
      }
    }

    /**
     * updateBlockedInstrCnt: a failed first attempt counts one more waiting
     * instruction, a success of a waiting one counts one less.
     */
    method UpdateBlockedInstrCnt(tx: TxId, suc: bool, isBlocked: bool)
      requires Valid()
      modifies this`transactions
      ensures Valid()
      ensures transactions == Counted(old(transactions), tx, CountDelta(suc, isBlocked))
      ensures Fresh(old(transactions), ticks) ==> Fresh(transactions, ticks)
    {
      ghost var before := transactions;
      InvCounted(sites, status, transactions, wfg.graph, ticks, tx, CountDelta(suc, isBlocked));
      if tx !in transactions {
        return;
      }
      var t := transactions[tx];
      if !suc {
        if !isBlocked {
          transactions := transactions[tx := t.(blockedInstrCnt := t.blockedInstrCnt + 1)];
        }
      } else {
        if isBlocked {
          transactions := transactions[tx := t.(blockedInstrCnt := t.blockedInstrCnt - 1)];
        }
      }
      CountedIs(before, tx, CountDelta(suc, isBlocked), transactions);
    }

    // --- the instructions ----------------------------------------------------------

    /** begin: registers a read-write transaction that starts now. */
    method Begin(tx: TxId) returns (ok: bool)
      requires Valid()
      modifies this`transactions
      ensures Valid() && ok
      ensures transactions == old(transactions)[tx := Txn.NewReadWrite(tx, ticks)]
    {
      InvStep(sites, status, transactions, wfg.graph, ticks, sites, status, transactions[tx := Txn.NewReadWrite(tx, ticks)], wfg.graph, ticks);
      transactions := transactions[tx := Txn.NewReadWrite(tx, ticks)];
      ok := true;
    }

    /**
     * beginRO: refused while any site is down; otherwise every site takes a
     * snapshot under the current tick and a read-only transaction starts.
     */
    method BeginRO(tx: TxId) returns (ok: bool)
      requires Valid()
      modifies this`transactions, this`sites
      ensures Valid()
      ensures ok <==> UpSet(status) == SiteIds()
      ensures !ok ==> transactions == old(transactions) && sites == old(sites)
      ensures ok ==> transactions == old(transactions)[tx := Txn.NewTransaction(tx, ticks, true)]
      ensures ok ==> sites == SnapshotAll(old(sites), ticks)
    {
      var upCnt := GetUpSiteCount(status);
      var downCnt := |status| - upCnt;
      assert UpSet(status) <= status.Keys;
      SubsetCard(UpSet(status), status.Keys);
      if downCnt > 0 {
        return false;
      }
      InvSnapshot(sites, status, transactions, wfg.graph, ticks, tx);
      sites := SnapshotEach(sites, status.Keys, ticks);
      transactions := transactions[tx := Txn.NewTransaction(tx, ticks, true)];
      ok := true;
    }

    /** Each site of `keys` takes a snapshot under tick `t`, one after the other. */
    static method SnapshotEach(sts: map<int, SiteState>, keys: set<int>, t: int) returns (r: map<int, SiteState>)
      requires keys == sts.Keys
      ensures r == SnapshotAll(sts, t)
    {
      r := sts;
      var rest := keys;
      while rest != {}
        invariant rest <= keys && r.Keys == sts.Keys
        invariant forall u :: u in r ==> r[u] == if u in rest then sts[u] else Snapshotted(sts[u], t)
        decreases rest
      {
        var s := Choose(rest);
        r := r[s := Snapshotted(r[s], t)];
        rest := rest - {s};
      }
      assert forall u :: u in r ==> r[u] == SnapshotAll(sts, t)[u];
    }

    /**
     * fail: the site is marked down as of now and loses its lock table.
     * Called at the start of a tick, before any access of this tick.
     */
    method Fail(s: int) returns (ok: bool)
      requires Valid() && IsSiteId(s) && Fresh(transactions, ticks)
      modifies this`status, this`sites
      ensures Valid() && ok
      ensures status == old(status)[s := SiteStatus(Down, ticks)]
      ensures sites == old(sites)[s := Failed(old(sites)[s])]
    {
      InvFail(sites, status, transactions, wfg.graph, ticks, s);
      status := status[s := SiteStatus(Down, ticks)];
      sites := sites[s := Failed(sites[s])];
      ok := true;
    }

    /** recover: the site is up again, keeping its last failure time, and its replicated copies are unreadable. */
    method Recover(s: int) returns (ok: bool)
      requires Valid() && IsSiteId(s)
      modifies this`status, this`sites
      ensures Valid() && ok
      ensures status == old(status)[s := SiteStatus(Up, old(status)[s].lastDownTime)]
      ensures sites == old(sites)[s := Recovered(old(sites)[s])]
    {
      InvRecover(sites, status, transactions, wfg.graph, ticks, s);
      var lastDownTime := status[s].lastDownTime;
      status := status[s := SiteStatus(Up, lastDownTime)];
      sites := sites[s := Recovered(sites[s])];
      ok := true;
    }

    /**
     * The attempts of read: at `first` and then, for a replicated variable,
     * at the next up sites in round-robin order, until a value is found or
     * as many sites as are up have been tried. Only a granted lock changes a
     * site; the blockers are those of the last refusing site.
     */
    method ReadAttempts(sts: map<int, SiteState>, t: Transaction, v: int, first: int)
      returns (value: Option<int>, site: int, blockSet: set<TxId>, sts': map<int, SiteState>, ghost blockSite: int)
      requires sites.Keys == SiteIds() && status.Keys == SiteIds()
      requires sts.Keys == SiteIds() && (forall s :: s in sts ==> SiteOk(s, sts[s]))
      requires 1 <= lastSiteID <= NumSites && 1 <= v <= NumVars
      requires IsUp(status, first) && (v % 2 == 1 ==> first == HomeSite(v))
      modifies this`lastSiteID
      ensures 1 <= lastSiteID <= NumSites
      ensures value.None? ==> sts' == sts
      ensures value.Some? ==> Served(sts, sts', status, t, v, site, value.value)
      ensures v % 2 == 1 ==> site == first
      ensures !t.isReadOnly && Txn.Read(t, v).Some? ==> value.Some? && site == first
      ensures !t.isReadOnly && Txn.Read(t, v).None? && v % 2 == 1 ==>
        (value.Some? <==> CheckLockAt(sts[first], t.name, v, LockKind.Read) == {})
      ensures blockSet != {} ==>
        && blockSite in sts && IsUp(status, blockSite) && Hosts(blockSite, v)
        && blockSet == CheckLockAt(sts[blockSite], t.name, v, LockKind.Read)
    {
      var isReplicated := v % 2 == 0;
      var upCnt := GetUpSiteCount(status);
      assert first in UpSet(status);
      value, site, blockSet, sts', blockSite := None, first, {}, sts, -1;
      var tryCnt := 1;
      ghost var steps: nat;
      while value.None?
        invariant value.None? && sts' == sts
        invariant 1 <= lastSiteID <= NumSites && IsUp(status, site) && Hosts(site, v) && (!isReplicated ==> site == first)
        invariant 1 <= tryCnt <= upCnt && (tryCnt == 1 ==> site == first)
        invariant !t.isReadOnly && Txn.Read(t, v).Some? ==> tryCnt == 1
        invariant blockSet != {} ==>
          && blockSite in sts && IsUp(status, blockSite) && Hosts(blockSite, v)
          && blockSet == CheckLockAt(sts[blockSite], t.name, v, LockKind.Read)
        decreases upCnt - tryCnt
      {
        if t.isReadOnly {
          value := ReadSnapshot(sts[site], v, t.beginTime);
        } else {
          // a buffered write of the transaction itself comes first
          value := Txn.Read(t, v);
          if value.None? {
            if !isReplicated || Get(sts[site].readable, v) == Some(true) {
              var r := Acquire(sts[site], t.name, v, LockKind.Read);
              blockSet := r.1;
              if blockSet == {} {
                sts' := sts[site := r.0];
                value := ReadValue(sts'[site], t.name, v);
              } else {
                blockSite := site;
              }
            }
          }
        }
        if value.Some? || !isReplicated || tryCnt >= upCnt {
          break;
        }
        site, steps := FindNextSite();
        tryCnt := tryCnt + 1;
      }
    }

    /**
     * The first site read tries: the next up site in round-robin order for a
     * replicated variable, the home site, if up, for another; -1 if none.
     */
    method FirstReadSite(v: int) returns (siteId: int)
      requires sites.Keys == SiteIds() && status.Keys == SiteIds() && 1 <= lastSiteID <= NumSites && 1 <= v <= NumVars
      modifies this`lastSiteID
      ensures 1 <= lastSiteID <= NumSites
      ensures siteId == -1 <==> if v % 2 == 0 then UpSet(status) == {} else !IsUp(status, HomeSite(v))
      ensures siteId != -1 ==> IsUp(status, siteId) && (v % 2 == 1 ==> siteId == HomeSite(v))
    {
      siteId := -1;
      ghost var steps: nat;
      if v % 2 == 0 {
        siteId, steps := FindNextSite();
      } else {
        var targetSiteID := v % 10 + 1;
        if status[targetSiteID].status.Up? {
          siteId := targetSiteID;
        }
      }
    }

    /**
     * read: a read-only transaction reads the snapshot of its begin time; a
     * read-write one reads its own buffered write if it has one, and
     * otherwise takes a read lock at a site where the copy is readable. A
     * replicated variable is tried at up to as many up sites as there are,
     * in round-robin order; an unreplicated one only at its home site.
     */
    method Read(tx: TxId, v: int) returns (ok: bool, value: Option<int>, ghost site: int, ghost blocked: set<TxId>, ghost blockSite: int)
      requires Valid() && 1 <= v <= NumVars
      modifies this`lastSiteID, this`transactions, this`sites, wfg
      ensures Valid()
      ensures ReadDone(old(sites), sites, status, old(transactions), transactions, old(wfg.graph), wfg.graph,
                       tx, v, ticks, ok, value, site, blocked, blockSite)
    {
      site, blocked, blockSite := -1, {}, -1;
      value := None;
      if tx !in transactions {
        return true, value, site, blocked, blockSite;
      }
      var t := transactions[tx];
      assert t.name == tx;
      var siteId := FirstReadSite(v);
      if siteId == -1 {
        return false, value, site, blocked, blockSite;
      }
      ghost var G0 := wfg.graph;
      var readSite, blockSet, sts;
      value, readSite, blockSet, sts, blockSite := ReadAttempts(sites, t, v, siteId);
      AddWaits(tx, blockSet);
      if value.Some? {
        InvRead(sites, sts, status, transactions, G0, ticks, tx, v, readSite, value.value, blockSet);
        Install(sts, Touched(transactions, tx, readSite, ticks));
      } else {
        InvWaits(sites, status, transactions, G0, ticks, tx, blockSet);
      }
      ok, site, blocked := value.Some?, readSite, blockSet;
    }

    /**
     * The first pass of a replicated write: checkLock for a write lock at
     * every up site, in ascending site order, counting the grants and
     * keeping the blockers of the last site that refuses.
     */
    static method CheckWriteLocks(sts: map<int, SiteState>, status: map<int, SiteStatus>, tx: TxId, v: int)
      returns (cnt: nat, blockSet: set<TxId>, ghost blockSite: int)
      requires sts.Keys == SiteIds() && status.Keys == SiteIds()
      ensures cnt == |UpSet(status)| <==> forall s :: s in UpSet(status) ==> Grants(sts, s, tx, v)
      ensures blockSet == {} <==> forall s :: s in UpSet(status) ==> Grants(sts, s, tx, v)
      ensures blockSet != {} ==>
        && IsUp(status, blockSite) && blockSet == CheckLockAt(sts[blockSite], tx, v, LockKind.Write)
        && forall u :: blockSite < u <= NumSites && IsUp(status, u) ==> Grants(sts, u, tx, v)
    {
      cnt, blockSet, blockSite := 0, {}, -1;
      var s := 1;
      while s <= NumSites
        invariant 1 <= s <= NumSites + 1
        invariant (cnt, blockSet, blockSite) == CheckPass(sts, status, tx, v, s)
      {
        if status[s].status.Up? {
          var blockSetTmp := CheckLockAt(sts[s], tx, v, LockKind.Write);
          if blockSetTmp == {} {
            cnt := cnt + 1;
          } else {
            blockSet, blockSite := blockSetTmp, s;
          }
        }
        s := s + 1;
      }
      CheckPassMeaning(sts, status, tx, v, NumSites + 1);
      GrantingAll(sts, status, tx, v);
    }

    /**
     * The second pass of an admitted replicated write: the write lock taken
     * at every up site in ascending order, and those sites listed for the
     * write record.
     */
    static method AcquireWriteLocks(sts: map<int, SiteState>, status: map<int, SiteStatus>, tx: TxId, v: int)
      returns (r: map<int, SiteState>, ws: seq<int>)
      requires sts.Keys == SiteIds() && status.Keys == SiteIds() && AllValid(sts)
      ensures ws == UpBelow(status, NumSites + 1)
      ensures r == AcquiredAt(sts, UpSet(status), tx, v)
    {
      r, ws := sts, [];
      var s := 1;
      while s <= NumSites
        invariant 1 <= s <= NumSites + 1
        invariant ws == UpBelow(status, s)
        invariant r == AcquiredAt(sts, UpBefore(status, s), tx, v)
      {
        AcquiredStep(sts, status, tx, v, s);
        if status[s].status.Up? {
          r := r[s := Acquire(r[s], tx, v, LockKind.Write).0];
          ws := ws + [s];
        }
        s := s + 1;
      }
      UpBeforeAll(status);
    }

    /** A refused replicated write leaves a pending-write marker at every up site. */
    static method PendWrites(sts: map<int, SiteState>, status: map<int, SiteStatus>, tx: TxId, v: int)
      returns (r: map<int, SiteState>)
      requires sts.Keys == SiteIds() && status.Keys == SiteIds() && AllValid(sts)
      ensures r == PendedAt(sts, UpSet(status), tx, v)
    {
      r := sts;
      var s := 1;
      while s <= NumSites
        invariant 1 <= s <= NumSites + 1
        invariant r == PendedAt(sts, UpBefore(status, s), tx, v)
      {
        PendedStep(sts, status, tx, v, s);
        if status[s].status.Up? {
          r := r[s := PendWrite(r[s], tx, v).0];
        }
        s := s + 1;
      }
      UpBeforeAll(status);
    }

    /**
     * write: a replicated variable needs the write lock at every up site and
     * an unreplicated one at its home site, if up. When all grant, the locks
     * are taken and the write is buffered in the transaction with those
     * sites; otherwise a replicated write leaves pending-write markers and
     * the transaction waits for the blockers of the last refusing site.
     */
    method Write(tx: TxId, v: int, val: int) returns (ok: bool, ghost blocked: set<TxId>, ghost blockSite: int)
      requires Valid() && 1 <= v <= NumVars
      modifies this`transactions, this`sites, wfg
      ensures Valid()
      ensures WriteDone(old(sites), sites, status, old(transactions), transactions, old(wfg.graph), wfg.graph,
                        tx, v, val, ticks, ok, blocked, blockSite)
    {
      blocked, blockSite := {}, -1;
      if tx !in transactions {
        return true, blocked, blockSite;
      }
      var t := transactions[tx];
      var upCnt := GetUpSiteCount(status);
      if upCnt == 0 {
        assert HomeSite(v) !in UpSet(status);
        return false, blocked, blockSite;
      }
      var sts, t', suc, blockSet;
      sts, t', suc, blockSet, blockSite := WriteSites(sites, status, tx, t, v, val, ticks, upCnt);
      if suc {
        InvAcquired(sites, status, transactions, wfg.graph, ticks, tx, v, val);
        Install(sts, transactions[tx := t']);
        return true, blockSet, blockSite;
      }
      InvRefused(sites, status, transactions, wfg.graph, ticks, tx, v, v % 2 == 0, blockSet);
      AddWaits(tx, blockSet);
      Install(sts, transactions);
      ok, blocked := false, blockSet;
    }

    /**
     * The site work of write once some site is up: the lock checks, and
     * then either the locks taken and the write buffered in a copy of the
     * record, or pending-write markers for a refused replicated write.
     */
    static method WriteSites(sts: map<int, SiteState>, status: map<int, SiteStatus>, tx: TxId, t: Transaction,
                             v: int, val: int, ticks: int, upCnt: nat)
      returns (sts': map<int, SiteState>, t': Transaction, suc: bool, blockSet: set<TxId>, ghost blockSite: int)
      requires sts.Keys == SiteIds() && status.Keys == SiteIds()
      requires AllValid(sts) && forall s :: s in sts ==> SiteOk(s, sts[s])
      requires 1 <= v <= NumVars && upCnt == |UpSet(status)| && upCnt > 0
      ensures suc <==> Targets(status, v) != {} && forall s :: s in Targets(status, v) ==> Grants(sts, s, tx, v)
      ensures suc ==> sts' == AcquiredAt(sts, Targets(status, v), tx, v) && t' == Appended(t, v, val, TargetList(status, v), ticks)
      ensures !suc ==>
        && sts' == (if v % 2 == 0 then PendedAt(sts, UpSet(status), tx, v) else sts)
        && (Targets(status, v) != {} ==> blockSet != {})
      ensures blockSet != {} ==>
        && IsUp(status, blockSite) && Hosts(blockSite, v)
        && blockSet == CheckLockAt(sts[blockSite], tx, v, LockKind.Write)
      ensures blockSet != {} && v % 2 == 0 ==>
        forall u :: blockSite < u <= NumSites && IsUp(status, u) ==> Grants(sts, u, tx, v)
    {
      sts', t', suc, blockSet, blockSite := sts, t, false, {}, -1;
      if v % 2 == 0 {
        var acquireLockCnt;
        acquireLockCnt, blockSet, blockSite := CheckWriteLocks(sts, status, tx, v);
        if acquireLockCnt == upCnt {
          var siteIDs;
          sts', siteIDs := AcquireWriteLocks(sts, status, tx, v);
          t' := Appended(t, v, val, siteIDs, ticks);
          suc := true;
        } else {
          sts' := PendWrites(sts, status, tx, v);
        }
      } else {
        var siteId := v % 10 + 1;
        if status[siteId].status.Up? {
          var r := Acquire(sts[siteId], tx, v, LockKind.Write);
          blockSet := r.1;
          if blockSet == {} {
            AcquiredOne(sts, siteId, tx, v);
            sts' := sts[siteId := r.0];
            t' := Appended(t, v, val, [siteId], ticks);
            suc := true;
          } else {
            blockSite := siteId;
          }
        }
      }
    }

    /**
     * Commit validation of end: no site the transaction accessed has failed
     * since its first access there.
     */
    static method Validate(t: Transaction, status: map<int, SiteStatus>) returns (commit: bool)
      requires t.accessedSites.Keys <= status.Keys
      ensures commit <==> Survived(t, status)
    {
      commit := true;
      var keys := t.accessedSites.Keys;
      while keys != {}
        invariant keys <= t.accessedSites.Keys
        invariant forall s :: s in t.accessedSites && s !in keys ==> status[s].lastDownTime <= t.accessedSites[s]
        decreases keys
      {
        var s := Choose(keys);
        if status[s].lastDownTime > t.accessedSites[s] {
          return false;
        }
        keys := keys - {s};
      }
    }

    /**
     * The commit writes of end: each buffered write, oldest first, at each
     * of its sites. Every site write finds the write lock it needs, as the
     * source asserts, because the transaction survived.
     */
    static method CommitWrites(sts: map<int, SiteState>, tx: TxId, ws: seq<WriteRecord>)
      returns (r: map<int, SiteState>)
      requires AllValid(sts) && Committable(sts, tx, ws)
      ensures r == Commit(sts, tx, ws)
    {
      r := sts;
      var i := 0;
      while i < |ws|
        invariant 0 <= i <= |ws|
        invariant r == Commit(sts, tx, ws[..i])
      {
        CommitStep(sts, tx, ws, i);
        CommitHeld(sts, tx, ws, i);
        r := ApplyEach(r, tx, ws[i]);
        i := i + 1;
      }
      assert ws[..|ws|] == ws;
    }

    /** One buffered write at each of its sites in order; each site write succeeds. */
    static method ApplyEach(sts: map<int, SiteState>, tx: TxId, w: WriteRecord) returns (r: map<int, SiteState>)
      requires AllValid(sts)
      requires forall s :: s in w.sites ==> s in sts && WriteLockedBy(sts[s], w.varId, tx)
      ensures r == ApplyRecord(sts, tx, w, w.sites)
    {
      r := sts;
      var j := 0;
      while j < |w.sites|
        invariant 0 <= j <= |w.sites|
        invariant r == ApplyRecord(sts, tx, w, w.sites[..j])
      {
        var s := w.sites[j];
        assert w.sites[..j + 1][..j] == w.sites[..j];
        var written := Written(r[s], tx, w.varId, w.value);
        assert written.1;
        r := r[s := written.0];
        j := j + 1;
      }
      assert w.sites[..|w.sites|] == w.sites;
    }

    /** releaseLocks of `tx` at each site of `keys`. */
    static method ReleaseEach(sts: map<int, SiteState>, tx: TxId, keys: set<int>) returns (r: map<int, SiteState>)
      requires AllValid(sts) && keys <= sts.Keys
      ensures r == ReleasedAt(sts, tx, keys)
    {
      r := sts;
      var rest := keys;
      while rest != {}
        invariant rest <= keys
        invariant r == ReleasedAt(sts, tx, keys - rest)
        decreases rest
      {
        var s := Choose(rest);
        ReleasedAtStep(sts, tx, keys - rest, s);
        r := r[s := Release(r[s], tx)];
        assert keys - (rest - {s}) == (keys - rest) + {s};
        rest := rest - {s};
      }
    }

    /**
     * end: a transaction nobody registered ends at once; one with waiting
     * instructions cannot end yet. Otherwise it commits exactly when it
     * survived validation (its buffered writes reach the sites), and either
     * way it releases its locks at every site it accessed and leaves the
     * registry and the wait-for graph.
     */
    method End(tx: TxId) returns (ok: bool, ghost committed: bool)
      requires Valid()
      modifies this`sites, this`transactions, wfg
      ensures Valid()
      ensures EndDone(old(sites), sites, status, old(transactions), transactions, old(wfg.graph), wfg.graph, tx, ok, committed)
    {
      committed := false;
      if tx !in transactions {
        return true, committed;
      }
      var t := transactions[tx];
      if t.blockedInstrCnt > 0 {
        return false, committed;
      }
      ghost var S0, T0, G0 := sites, transactions, wfg.graph;
      assert Inv(S0, status, T0, G0, ticks) && T0[tx] == t;
      assert TxOk(tx, t, ticks) && Holds(S0, status, tx, t);
      var commit := Validate(t, status);
      var sts := sites;
      if commit {
        SurvivorCommittable(sites, status, tx, t, ticks);
        sts := CommitWrites(sites, tx, t.writes);
      }
      sts := ReleaseEach(sts, tx, t.accessedSites.Keys);
      InvEnd(S0, status, T0, G0, ticks, tx, commit, sts);
      wfg.RemoveNode(tx);
      Install(sts, transactions - {tx});
      ok, committed := true, commit;
    }

    /** The buffer without the instructions that mention `tx`, order kept. */
    static method DropMentions(buffer: seq<Instruction>, tx: TxId) returns (r: seq<Instruction>)
      ensures r == Without(buffer, tx)
    {
      r := [];
      var i := 0;
      while i < |buffer|
        invariant 0 <= i <= |buffer|
        invariant r == Without(buffer[..i], tx)
      {
        assert buffer[..i + 1][..i] == buffer[..i];
        if !Mentions(buffer[i], tx) {
          r := r + [buffer[i]];
        }
        i := i + 1;
      }
      assert buffer[..|buffer|] == buffer;
    }

    /**
     * abort: the transaction releases its locks at every site it accessed,
     * its buffered instructions are dropped, and it leaves the wait-for
     * graph and the registry.
     */
    method Abort(tx: TxId)
      requires Valid() && tx in transactions
      modifies this`sites, this`transactions, this`buffer, wfg
      ensures Valid()
      ensures sites == ReleasedAt(old(sites), tx, old(transactions)[tx].accessedSites.Keys)
      ensures buffer == Without(old(buffer), tx)
      ensures wfg.graph == RemovedNode(old(wfg.graph), tx)
      ensures transactions == old(transactions) - {tx}
    {
      var t := transactions[tx];
      assert TxOk(tx, t, ticks);
      var sts := ReleaseEach(sites, tx, t.accessedSites.Keys);
      buffer := DropMentions(buffer, tx);
      InvEnd(sites, status, transactions, wfg.graph, ticks, tx, false, sts);
      wfg.RemoveNode(tx);
      Install(sts, transactions - {tx});
    }

    /**
     * parse, after parsing: dispatches one instruction. A read or write
     * then updates its transaction's count of waiting instructions; an
     * unknown instruction never succeeds. `isBlocked` says whether the
     * instruction already counts as waiting.
     */
    method Execute(ins: Instruction, isBlocked: bool)
      returns (ok: bool, ghost visited: map<TxId, Transaction>, ghost value: Option<int>, ghost site: int,
               ghost blocked: set<TxId>, ghost blockSite: int, ghost committed: bool)
      requires Valid() && WellFormed(ins) && Fresh(transactions, ticks)
      modifies this`sites, this`transactions, this`status, this`lastSiteID, wfg
      ensures Valid()
      ensures !ok ==> Fresh(transactions, ticks)
      ensures AlwaysSucceeds(ins) ==> ok
      ensures !ins.Fail? && !ins.Recover? ==> status == old(status)
      ensures ins.Begin? || ins.BeginRO? || ins.Fail? || ins.Recover? || ins.Dump? || ins.QueryState? || ins.Unknown? ==>
        wfg.graph == old(wfg.graph)
      ensures ins.Dump? || ins.QueryState? || ins.Unknown? ==>
        (ok <==> !ins.Unknown?) && sites == old(sites) && transactions == old(transactions)
      ensures ins.Begin? ==> sites == old(sites) && transactions == old(transactions)[ins.tx := Txn.NewReadWrite(ins.tx, ticks)]
      ensures ins.BeginRO? ==>
        && (ok <==> UpSet(old(status)) == SiteIds())
        && (ok ==> sites == SnapshotAll(old(sites), ticks)
                   && transactions == old(transactions)[ins.tx := Txn.NewTransaction(ins.tx, ticks, true)])
        && (!ok ==> sites == old(sites) && transactions == old(transactions))
      ensures ins.R? ==>
        && ReadDone(old(sites), sites, status, old(transactions), visited, old(wfg.graph), wfg.graph,
                    ins.tx, ins.varId, ticks, ok, value, site, blocked, blockSite)
        && transactions == Counted(visited, ins.tx, CountDelta(ok, isBlocked))
      ensures ins.W? ==>
        && WriteDone(old(sites), sites, status, old(transactions), visited, old(wfg.graph), wfg.graph,
                     ins.tx, ins.varId, ins.value, ticks, ok, blocked, blockSite)
        && transactions == Counted(visited, ins.tx, CountDelta(ok, isBlocked))
      ensures ins.End? ==>
        EndDone(old(sites), sites, status, old(transactions), transactions, old(wfg.graph), wfg.graph, ins.tx, ok, committed)
      ensures ins.Fail? ==>
        && status == old(status)[ins.site := SiteStatus(Down, ticks)]
        && sites == old(sites)[ins.site := Failed(old(sites)[ins.site])] && transactions == old(transactions)
      ensures ins.Recover? ==>
        && status == old(status)[ins.site := SiteStatus(Up, old(status)[ins.site].lastDownTime)]
        && sites == old(sites)[ins.site := Recovered(old(sites)[ins.site])] && transactions == old(transactions)
    {
      visited, value, site, blocked, blockSite, committed := transactions, None, -1, {}, -1, false;
      match ins {
        case Begin(tx) =>
          ok := Begin(tx);
        case BeginRO(tx) =>
          ok := BeginRO(tx);
        case R(tx, v) =>
          ok, visited, value, site, blocked, blockSite := CountedRead(tx, v, isBlocked);
        case W(tx, v, val) =>
          ok, visited, blocked, blockSite := CountedWrite(tx, v, val, isBlocked);
        case End(tx) =>
          ok, committed := End(tx);
        case Fail(s) =>
          ok := Fail(s);
        case Recover(s) =>
          ok := Recover(s);
        case Dump =>
          ok := true;
        case QueryState =>
          ok := true;
        case Unknown(_) =>
          ok := false;
      }
    }

    /** An R instruction: read, then the waiting-instruction count of its transaction. */
    method CountedRead(tx: TxId, v: int, isBlocked: bool)
      returns (ok: bool, ghost read: map<TxId, Transaction>, ghost value: Option<int>, ghost site: int,
               ghost blocked: set<TxId>, ghost blockSite: int)
      requires Valid() && 1 <= v <= NumVars && Fresh(transactions, ticks)
      modifies this`sites, this`transactions, this`lastSiteID, wfg
      ensures Valid()
      ensures !ok ==> Fresh(transactions, ticks)
      ensures ReadDone(old(sites), sites, status, old(transactions), read, old(wfg.graph), wfg.graph,
                       tx, v, ticks, ok, value, site, blocked, blockSite)
      ensures transactions == Counted(read, tx, CountDelta(ok, isBlocked))
    {
      ok, value, site, blocked, blockSite := Read(tx, v);
      read := transactions;
      UpdateBlockedInstrCnt(tx, ok, isBlocked);
    }

    /** A W instruction: write, then the waiting-instruction count of its transaction. */
    method CountedWrite(tx: TxId, v: int, val: int, isBlocked: bool)
      returns (ok: bool, ghost written: map<TxId, Transaction>, ghost blocked: set<TxId>, ghost blockSite: int)
      requires Valid() && 1 <= v <= NumVars && Fresh(transactions, ticks)
      modifies this`sites, this`transactions, wfg
      ensures Valid()
      ensures !ok ==> Fresh(transactions, ticks)
      ensures WriteDone(old(sites), sites, status, old(transactions), written, old(wfg.graph), wfg.graph,
                        tx, v, val, ticks, ok, blocked, blockSite)
      ensures transactions == Counted(written, tx, CountDelta(ok, isBlocked))
    {
      ok, blocked, blockSite := Write(tx, v, val);
      written := transactions;
      UpdateBlockedInstrCnt(tx, ok, isBlocked);
    }

    /**
     * The deadlock check at the start of a tick: when the wait-for graph
     * has a cycle, its youngest member (latest begin, first in cycle order
     * among equals) is aborted.
     */
    method ResolveDeadlock() returns (ghost victim: Option<TxId>, ghost cycle: seq<TxId>)
      requires Valid()
      modifies this`sites, this`transactions, this`buffer, wfg
      ensures Valid() && |buffer| <= |old(buffer)|
      ensures BufferOk(old(buffer)) ==> BufferOk(buffer)
      ensures forall n :: n in transactions ==> n in old(transactions) && transactions[n] == old(transactions)[n]
      ensures DeadlockBroken(old(sites), sites, old(transactions), transactions, old(buffer), buffer,
                             old(wfg.graph), wfg.graph, victim, cycle)
    {
      victim, cycle := None, [];
      var list := wfg.DetectDeadlock();
      if list.Some? {
        CycleNodesInGraph(wfg.graph, list.value);
        assert forall i :: 0 <= i < |list.value| ==> TxOk(list.value[i], transactions[list.value[i]], ticks);
        var name, k := FindYoungest(transactions, list.value);
        Abort(name);
        victim, cycle := Some(name), list.value;
      }
    }

    /**
     * One pass over the buffer: the instructions are tried in order and the
     * first that succeeds leaves the buffer. Each is counted as waiting
     * unless it is the line that arrived in this tick.
     */
    method Drain(hasNewInstr: bool) returns (allBlocked: bool, ghost k: int)
      requires Valid() && BufferOk(buffer) && Fresh(transactions, ticks)
      modifies this`sites, this`transactions, this`status, this`lastSiteID, this`buffer, wfg
      ensures Valid() && BufferOk(buffer)
      ensures allBlocked ==> buffer == old(buffer) && Fresh(transactions, ticks)
      ensures allBlocked ==> forall j :: 0 <= j < |old(buffer)| ==> !AlwaysSucceeds(old(buffer)[j])
      ensures !allBlocked ==> 0 <= k < |old(buffer)| && buffer == old(buffer)[..k] + old(buffer)[k + 1..]
      ensures !allBlocked ==> |buffer| == |old(buffer)| - 1
      ensures !allBlocked ==>
        && !old(buffer)[k].Unknown?
        && forall j :: 0 <= j < k ==> !AlwaysSucceeds(old(buffer)[j])
    {
      allBlocked, k := true, -1;
      var i := 0;
      while i < |buffer| && allBlocked
        invariant 0 <= i <= |buffer| && buffer == old(buffer)
        invariant Valid()
        invariant allBlocked ==> Fresh(transactions, ticks) && k == -1
        invariant forall j :: 0 <= j < i ==> !AlwaysSucceeds(buffer[j])
        invariant !allBlocked ==> i == k < |buffer| && !buffer[k].Unknown?
        decreases |buffer| - i, allBlocked
      {
        var ins, ok := buffer[i], false;
        ghost var visited, value, site, blocked, blockSite, committed;
        ok, visited, value, site, blocked, blockSite, committed := Execute(ins, i < |buffer| - 1 || !hasNewInstr);
        if ok {
          allBlocked, k := false, i;
        } else {
          i := i + 1;
        }
      }
      if !allBlocked {
        buffer := buffer[..i] + buffer[i + 1..];
        assert forall j :: 0 <= j < |buffer| ==> buffer[j] == old(buffer)[if j < i then j else j + 1];
      }
    }

    /**
     * The start of a tick: the clock advances and a deadlock costs its
     * youngest member. No access is recorded at the new tick yet.
     */
    method StartTick() returns (ghost victim: Option<TxId>, ghost cycle: seq<TxId>)
      requires Valid() && BufferOk(buffer)
      modifies this`sites, this`transactions, this`buffer, this`ticks, wfg
      ensures BufferOk(buffer) && |buffer| <= |old(buffer)| && ticks == old(ticks) + 1
      ensures Inv(sites, status, transactions, wfg.graph, ticks - 1) && 1 <= lastSiteID <= NumSites
      ensures DeadlockBroken(old(sites), sites, old(transactions), transactions, old(buffer), buffer,
                             old(wfg.graph), wfg.graph, victim, cycle)
    {
      ghost var T0 := transactions;
      assert forall n :: n in T0 ==> TxOk(n, T0[n], ticks);
      InvNextTick(sites, status, transactions, wfg.graph, ticks);
      ticks := ticks + 1;
      victim, cycle := ResolveDeadlock();
      InvSameTick(sites, status, T0, transactions, wfg.graph, ticks - 1);
    }

    /** A blank or comment line gives its tick back. */
    method GiveBackTick()
      requires Inv(sites, status, transactions, wfg.graph, ticks - 1) && 1 <= lastSiteID <= NumSites
      modifies this`ticks
      ensures Valid() && ticks == old(ticks) - 1
    {
      ticks := ticks - 1;
    }

    /**
     * The rest of a tick, after the deadlock check: a blank or comment line
     * gives the tick back and ends it; any other line joins the buffer, and
     * one pass over the buffer follows. The run is to stop after a pass in
     * which everything stayed blocked and no input is left.
     */
    method FinishTick(line: Option<InputLine>, moreInput: bool) returns (stop: bool, ghost allBlocked: bool)
      requires Inv(sites, status, transactions, wfg.graph, ticks - 1) && 1 <= lastSiteID <= NumSites && BufferOk(buffer)
      requires line.Some? && line.value.Line? ==> WellFormed(line.value.instr)
      modifies this`sites, this`transactions, this`status, this`lastSiteID, this`buffer, this`ticks, wfg
      ensures Valid() && BufferOk(buffer)
      ensures ticks == old(ticks) - (if line == Some(Blank) then 1 else 0)
      ensures line == Some(Blank) ==> !stop && !allBlocked && buffer == old(buffer)
      ensures line != Some(Blank) ==> (stop <==> allBlocked && !moreInput)
      ensures line.None? && !allBlocked ==> |buffer| < |old(buffer)|
      ensures allBlocked ==>
        && buffer == old(buffer) + (if line.Some? && line.value.Line? then [line.value.instr] else [])
        && forall j :: 0 <= j < |buffer| ==> !AlwaysSucceeds(buffer[j])
    {
      stop, allBlocked := false, false;
      InvNextTick(sites, status, transactions, wfg.graph, ticks - 1);
      var hasNewInstr := line.Some?;
      if hasNewInstr {
        if line.value.Blank? {
          GiveBackTick();
          return;
        }
        buffer := buffer + [line.value.instr];
      }
      var blocked;
      ghost var k;
      blocked, k := Drain(hasNewInstr);
      allBlocked := blocked;
      stop := blocked && !moreInput;
    }

    /**
     * One tick of run: the clock advances and a deadlock is broken, then
     * the line (if any) is taken and the buffer drained.
     */
    method Tick(line: Option<InputLine>, moreInput: bool)
      returns (stop: bool, ghost allBlocked: bool, ghost victim: Option<TxId>)
      requires Valid() && BufferOk(buffer)
      requires line.Some? && line.value.Line? ==> WellFormed(line.value.instr)
      requires line.None? ==> !moreInput
      modifies this`sites, this`transactions, this`status, this`lastSiteID, this`buffer, this`ticks, wfg
      ensures Valid() && BufferOk(buffer)
      ensures ticks == old(ticks) + (if line == Some(Blank) then 0 else 1)
      ensures victim.None? <==> !HasCycle(old(wfg.graph))
      ensures line == Some(Blank) ==> !stop && !allBlocked
      ensures line != Some(Blank) ==> (stop <==> allBlocked && !moreInput)
      ensures stop ==> !moreInput
      ensures line.None? && !allBlocked ==> |buffer| < |old(buffer)|
      ensures allBlocked ==> forall j :: 0 <= j < |buffer| ==> !AlwaysSucceeds(buffer[j])
      ensures victim.None? && allBlocked ==>
        buffer == old(buffer) + (if line.Some? && line.value.Line? then [line.value.instr] else [])
    {
      ghost var cycle;
      victim, cycle := StartTick();
      stop, allBlocked := FinishTick(line, moreInput);
    }

    /**
     * run: one tick per input line, then one per pass over the buffer once
     * the input is exhausted, until the buffer is empty or entirely
     * blocked. The coordinator's invariant holds throughout, so every
     * commit write that end performs succeeds.
     */
    method Run(input: seq<InputLine>)
      requires Valid() && InputOk(input) && BufferOk(buffer)
      modifies this`sites, this`transactions, this`status, this`lastSiteID, this`buffer, this`ticks, wfg
      ensures Valid() && BufferOk(buffer) && ticks >= old(ticks)
    {
      var pos := 0;
      while buffer != [] || pos < |input|
        invariant 0 <= pos <= |input|
        invariant Valid() && BufferOk(buffer) && ticks >= old(ticks)
        decreases |input| - pos, |buffer|
      {
        var line := None;
        if pos < |input| {
          line := Some(input[pos]);
          pos := pos + 1;
        }
        var stop;
        ghost var allBlocked, victim;
        stop, allBlocked, victim := Tick(line, pos < |input|);
        if stop {
          break;
        }
      }
    }
  }
}
