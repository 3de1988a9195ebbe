/**
 * One site of the replicated database (DataManager.java): its lock table,
 * pending-write markers, value table, readability flags for replicated
 * variables and its history of snapshots.
 *
 * The first half is a value-level model: the lock entry, the three grant
 * rules of checkLock, and one pure operation per mutator on a whole
 * `SiteState`. The class `DataManager` at the end keeps the same tables as
 * fields and updates them in place; each of its methods is proved to leave
 * the site in the state the pure operation describes.
 */
module Site {
  import opened Common

  /** The catalog: twenty integer variables x1..x20 spread over ten sites. */
  const NumVars := 20
  const NumSites := 10

  /** Site `site` keeps a copy of x_i: every even variable, odd ones at site 1 + (i mod 10). */
  predicate Hosts(site: int, i: int)
  {
    1 <= i <= NumVars && (i % 2 == 0 || 1 + i % 10 == site)
  }

  /** Every even variable lives at every site; an odd one at exactly one site. */
  lemma CatalogPlacement(i: int)
    requires 1 <= i <= NumVars
    ensures i % 2 == 0 ==> forall s :: 1 <= s <= NumSites ==> Hosts(s, i)
    ensures i % 2 == 1 ==> 1 <= 1 + i % 10 <= NumSites && forall s :: Hosts(s, i) <==> s == 1 + i % 10
  {
  }

  // ---------------------------------------------------------------------------
  // Lock entries and the grant rules
  // ---------------------------------------------------------------------------

  datatype LockKind = Read | Write

  /**
   * A row of the lock table. `writer` is `None` where the source stores the
   * empty string.
   */
  datatype LockEntry = LockEntry(kind: LockKind, writer: Option<TxId>, readers: set<TxId>)

  /**
   * The shape every reachable entry has: a READ entry has readers and no
   * writer; a WRITE entry has a writer, and its reader set is at most the
   * writer itself (what remains after a promotion).
   */
  predicate ValidEntry(e: LockEntry)
  {
    && (e.kind.Read? ==> e.writer.None? && e.readers != {})
    && (e.kind.Write? ==> e.writer.Some? && e.readers <= {e.writer.value})
  }

  /** `tx` takes part in `e`, as its writer or as one of its readers. */
  predicate Involves(e: LockEntry, tx: TxId)
  {
    e.writer == Some(tx) || tx in e.readers
  }

  /** The LockEntry constructor: a fresh entry held by `tx` alone. */
  function NewEntry(kind: LockKind, tx: TxId): (e: LockEntry)
    ensures ValidEntry(e) && e.kind == kind
    ensures forall x :: Involves(e, x) <==> x == tx
  {
    if kind.Read? then LockEntry(Read, None, {tx}) else LockEntry(Write, Some(tx), {})
  }

  /**
   * LockEntry.setLock. A READ request joins the reader set and clears the
   * writer; a WRITE request installs the writer and keeps the reader set.
   */
  function SetLock(e: LockEntry, kind: LockKind, tx: TxId): (e': LockEntry)
    ensures e'.kind == kind && Involves(e', tx)
    ensures e.readers <= e'.readers
    ensures kind.Write? ==> e'.writer == Some(tx) && e'.readers == e.readers
    ensures kind.Read? ==> e'.writer.None? && e'.readers == e.readers + {tx}
  {
    if kind.Read? then e.(kind := Read, writer := None, readers := e.readers + {tx})
    else e.(kind := Write, writer := Some(tx))
  }

  /** Grant rule 1: no entry, and no marker or a WRITE request by the marker's owner. */
  predicate FreeRule(e: Option<LockEntry>, m: Option<TxId>, tx: TxId, kind: LockKind)
  {
    e.None? && (m.None? || (kind.Write? && m == Some(tx)))
  }

  /** Grant rule 2: READ on a READ entry, with no marker or a requester that already reads. */
  predicate SharedRule(e: Option<LockEntry>, m: Option<TxId>, tx: TxId, kind: LockKind)
  {
    e.Some? && e.value.kind.Read? && kind.Read? && (m.None? || tx in e.value.readers)
  }

  /** Grant rule 3: promotion of the sole reader to writer, with no marker or its own marker. */
  predicate PromotionRule(e: Option<LockEntry>, m: Option<TxId>, tx: TxId, kind: LockKind)
  {
    kind.Write? && e.Some? && e.value.kind.Read? && e.value.readers == {tx}
    && (m.None? || m == Some(tx))
  }

  /** genBlockTrancSet: the marker's owner, the writer and every reader. */
  function Blockers(e: Option<LockEntry>, m: Option<TxId>): (r: set<TxId>)
    ensures forall x :: x in r <==> m == Some(x) || (e.Some? && Involves(e.value, x))
  {
    (if m.Some? then {m.value} else {})
    + (if e.Some? then (if e.value.writer.Some? then {e.value.writer.value} else {}) + e.value.readers
       else {})
  }

  /**
   * checkLock on the entry `e` and marker `m` of one variable: the empty set
   * when the request can be granted, otherwise the transactions in the way.
   */
  function CheckLock(e: Option<LockEntry>, m: Option<TxId>, tx: TxId, kind: LockKind): (blockers: set<TxId>)
    ensures (e.None? || ValidEntry(e.value)) ==>
      (blockers == {} <==> FreeRule(e, m, tx, kind) || SharedRule(e, m, tx, kind) || PromotionRule(e, m, tx, kind))
    ensures blockers != {} ==> blockers == Blockers(e, m)
    // a granted WRITE leaves nobody else holding or awaiting the variable
    ensures (e.None? || ValidEntry(e.value)) && blockers == {} && kind.Write? ==>
      (m.None? || m == Some(tx)) && (e.None? || (e.value.kind.Read? && e.value.readers == {tx}))
    // a granted READ never shares the variable with a writer
    ensures (e.None? || ValidEntry(e.value)) && blockers == {} && kind.Read? ==> e.None? || e.value.kind.Read?
  {
    if FreeRule(e, m, tx, kind) || SharedRule(e, m, tx, kind) || PromotionRule(e, m, tx, kind) then {}
    else Blockers(e, m)
  }

  /** Owning the pending marker is not enough to join a READ entry held by others. */
  lemma MarkerOwnerCannotJoinReaders(tx: TxId, other: TxId)
    requires tx != other
    ensures CheckLock(Some(LockEntry(Read, None, {other})), Some(tx), tx, Read) == {tx, other}
  {
  }

  /** A transaction that already holds the WRITE lock is refused a second WRITE, and blocks itself. */
  lemma WriterReRequestBlocksItself(tx: TxId, readers: set<TxId>, m: Option<TxId>)
    requires readers <= {tx}
    ensures tx in CheckLock(Some(LockEntry(Write, Some(tx), readers)), m, tx, Write)
  {
  }

  /** A promoted entry is WRITE by `tx` and still lists `tx` as reader. */
  lemma PromotionKeepsReader(tx: TxId)
    ensures PromotionRule(Some(LockEntry(Read, None, {tx})), None, tx, Write)
    ensures SetLock(LockEntry(Read, None, {tx}), Write, tx) == LockEntry(Write, Some(tx), {tx})
  {
  }

  // ---------------------------------------------------------------------------
  // The state of one site and the operations on it
  // ---------------------------------------------------------------------------

  datatype SiteState = SiteState(
    data: map<int, int>,                // value table
    locks: map<int, LockEntry>,         // lock table
    pending: map<int, TxId>,            // pending-write marker per variable
    readable: map<int, bool>,           // readability of replicated variables
    snapshots: map<int, map<int, int>>) // copies of the value table, by tick

  /**
   * Site invariant: locks only on hosted variables, every entry well shaped,
   * and a readability flag for exactly the hosted replicated variables.
   */
  ghost predicate ValidSite(st: SiteState)
  {
    && (forall v :: v in st.locks ==> v in st.data && ValidEntry(st.locks[v]))
    && (forall v :: v in st.readable <==> v in st.data && v % 2 == 0)
  }

  predicate ReadLockedBy(st: SiteState, v: int, tx: TxId)
  {
    v in st.locks && st.locks[v].kind.Read? && tx in st.locks[v].readers
  }

  predicate WriteLockedBy(st: SiteState, v: int, tx: TxId)
  {
    v in st.locks && st.locks[v].kind.Write? && st.locks[v].writer == Some(tx)
  }

  /** Every write lock held at `st` is still held at `st'`. */
  ghost predicate KeepsWriteLocks(st: SiteState, st': SiteState)
  {
    forall v, x :: WriteLockedBy(st, v, x) ==> WriteLockedBy(st', v, x)
  }

  /** The state built by the DataManager constructor for site `site`. */
  function InitialState(site: int): (st: SiteState)
    ensures ValidSite(st)
    ensures forall i :: i in st.data <==> Hosts(site, i)
    ensures forall i :: i in st.data ==> st.data[i] == 10 * i
    ensures forall i :: i in st.readable <==> Hosts(site, i) && i % 2 == 0
    ensures forall i :: i in st.readable ==> st.readable[i]
    ensures st.locks == map[] && st.pending == map[] && st.snapshots == map[]
  {
    var data := map i | 1 <= i <= NumVars && Hosts(site, i) :: 10 * i;
    SiteState(data, map[], map[], map i | i in data && i % 2 == 0 :: true, map[])
  }

  /** checkLock against the tables of a site. */
  function CheckLockAt(st: SiteState, tx: TxId, v: int, kind: LockKind): set<TxId>
  {
    CheckLock(Get(st.locks, v), Get(st.pending, v), tx, kind)
  }

  /**
   * acquireLock: nothing happens for a variable the site does not host;
   * otherwise the lock is installed exactly when checkLock grants it.
   */
  function Acquire(st: SiteState, tx: TxId, v: int, kind: LockKind): (r: (SiteState, set<TxId>))
    requires ValidSite(st)
    ensures ValidSite(r.0)
    ensures r.1 == (if v in st.data then CheckLockAt(st, tx, v, kind) else {})
    ensures v !in st.data || r.1 != {} ==> r.0 == st
    ensures r.0.data == st.data && r.0.readable == st.readable && r.0.snapshots == st.snapshots
    ensures v in st.data && r.1 == {} ==>
      (if kind.Read? then ReadLockedBy(r.0, v, tx) else WriteLockedBy(r.0, v, tx))
    ensures v in st.data && r.1 == {} ==>
      r.0.pending == if kind.Write? && Get(st.pending, v) == Some(tx) then st.pending - {v} else st.pending
    ensures forall u :: u != v ==> Get(r.0.locks, u) == Get(st.locks, u)
    ensures KeepsWriteLocks(st, r.0)
  {
    if v !in st.data then (st, {})
    else
      var blockers := CheckLockAt(st, tx, v, kind);
      if blockers != {} then (st, blockers)
      else
        var entry := if v in st.locks then SetLock(st.locks[v], kind, tx) else NewEntry(kind, tx);
        var pending := if kind.Write? && Get(st.pending, v) == Some(tx) then st.pending - {v} else st.pending;
        (st.(locks := st.locks[v := entry], pending := pending), {})
  }

  /**
   * setPendingWrite: succeeds only when the variable has no marker; then
   * `tx` owns the marker and gives up its own read lock on the variable.
   */
  function PendWrite(st: SiteState, tx: TxId, v: int): (r: (SiteState, bool))
    requires ValidSite(st)
    ensures ValidSite(r.0)
    ensures r.1 <==> v !in st.pending
    ensures !r.1 ==> r.0 == st
    ensures r.1 ==> r.0.pending == st.pending[v := tx] && !ReadLockedBy(r.0, v, tx)
    ensures r.1 ==> forall x :: x != tx ==> (ReadLockedBy(r.0, v, x) <==> ReadLockedBy(st, v, x))
    ensures r.1 && ReadLockedBy(st, v, tx) && st.locks[v].readers == {tx} ==> v !in r.0.locks
    ensures forall u :: u != v ==> Get(r.0.locks, u) == Get(st.locks, u)
    ensures r.0.data == st.data && r.0.readable == st.readable && r.0.snapshots == st.snapshots
    ensures KeepsWriteLocks(st, r.0)
  {
    if v in st.pending then (st, false)
    else
      var locks :=
        if ReadLockedBy(st, v, tx) then
          assert forall x :: x in st.locks[v].readers && x != tx ==> x in st.locks[v].readers - {tx};
          (if st.locks[v].readers - {tx} == {} then st.locks - {v}
           else st.locks[v := st.locks[v].(readers := st.locks[v].readers - {tx})])
        else st.locks;
      (st.(pending := st.pending[v := tx], locks := locks), true)
  }

  /** What releaseLocks leaves of an entry that involves the releasing transaction. */
  function ReleaseEntry(e: LockEntry, tx: TxId): Option<LockEntry>
  {
    if e.kind.Read? && e.readers - {tx} != {} then Some(e.(readers := e.readers - {tx})) else None
  }

  /** The lock table after `tx` releases everything it holds. */
  function ReleasedLocks(locks: map<int, LockEntry>, tx: TxId): map<int, LockEntry>
  {
    map u | u in locks && (!Involves(locks[u], tx) || ReleaseEntry(locks[u], tx).Some?) ::
      if Involves(locks[u], tx) then ReleaseEntry(locks[u], tx).value else locks[u]
  }

  /**
   * releaseLocks: afterwards `tx` takes part in no entry; WRITE entries it
   * held are gone, READ entries lose only `tx`, the rest is untouched.
   */
  function Release(st: SiteState, tx: TxId): (r: SiteState)
    requires ValidSite(st)
    ensures ValidSite(r)
    ensures r == st.(locks := r.locks)
    ensures forall u :: u in r.locks ==> u in st.locks && !Involves(r.locks[u], tx)
    ensures forall u :: u in st.locks && !Involves(st.locks[u], tx) ==> u in r.locks && r.locks[u] == st.locks[u]
    ensures forall u :: u in st.locks && st.locks[u].kind.Write? && Involves(st.locks[u], tx) ==> u !in r.locks
    ensures forall u :: ReadLockedBy(st, u, tx) ==>
      if st.locks[u].readers == {tx} then u !in r.locks
      else u in r.locks && r.locks[u] == st.locks[u].(readers := st.locks[u].readers - {tx})
    ensures forall u, x :: x != tx && WriteLockedBy(st, u, x) ==> WriteLockedBy(r, u, x)
  {
    st.(locks := ReleasedLocks(st.locks, tx))
  }

  /** fail: the lock and pending tables are emptied; values and flags survive. */
  function Failed(st: SiteState): (r: SiteState)
    ensures r == st.(locks := map[], pending := map[])
    ensures ValidSite(st) ==> ValidSite(r)
  {
    st.(locks := map[], pending := map[])
  }

  /** After a failure every lock request at the site is granted. */
  lemma FailedSiteGrantsAll(st: SiteState, tx: TxId, v: int, kind: LockKind)
    ensures CheckLockAt(Failed(st), tx, v, kind) == {}
  {
  }

  /** recover: every replicated variable becomes unreadable; nothing else changes. */
  function Recovered(st: SiteState): (r: SiteState)
    ensures r == st.(readable := r.readable)
    ensures r.readable.Keys == st.readable.Keys
    ensures forall v :: v in r.readable ==> !r.readable[v]
    ensures ValidSite(st) ==> ValidSite(r)
  {
    st.(readable := map v | v in st.readable :: false)
  }

  /** read: the current value, only for a holder of a READ lock on the variable. */
  function ReadValue(st: SiteState, tx: TxId, v: int): (r: Option<int>)
    ensures r.Some? <==> ReadLockedBy(st, v, tx) && v in st.data
    ensures r.Some? ==> r.value == st.data[v]
  {
    if v in st.locks && tx in st.locks[v].readers && st.locks[v].kind.Read? then Get(st.data, v) else None
  }

  /** readRO: the value recorded by the snapshot taken at exactly tick `t`. */
  function ReadSnapshot(st: SiteState, v: int, t: int): (r: Option<int>)
    ensures t !in st.snapshots ==> r.None?
    ensures t in st.snapshots ==> r == Get(st.snapshots[t], v)
  {
    if t !in st.snapshots then None else Get(st.snapshots[t], v)
  }

  /**
   * write: stores the value only for the WRITE holder, and then makes a
   * replicated variable readable again; otherwise nothing changes.
   */
  function Written(st: SiteState, tx: TxId, v: int, val: int): (r: (SiteState, bool))
    requires ValidSite(st)
    ensures ValidSite(r.0)
    ensures r.1 <==> WriteLockedBy(st, v, tx)
    ensures !r.1 ==> r.0 == st
    ensures r.0.locks == st.locks && r.0.pending == st.pending && r.0.snapshots == st.snapshots
    ensures r.0.data.Keys == st.data.Keys
    ensures r.1 ==> r.0.data[v] == val && (v % 2 == 0 ==> r.0.readable[v])
    ensures forall u :: u != v ==> Get(r.0.data, u) == Get(st.data, u) && Get(r.0.readable, u) == Get(st.readable, u)
  {
    if v in st.locks && st.locks[v].writer == Some(tx) && st.locks[v].kind.Write? then
      var readable := if v % 2 == 0 then st.readable[v := true] else st.readable;
      (st.(data := st.data[v := val], readable := readable), true)
    else (st, false)
  }

  /** takeSnapshot: the value table is copied under tick `t`; older snapshots stay. */
  function Snapshotted(st: SiteState, t: int): (r: SiteState)
    ensures r == st.(snapshots := r.snapshots)
    ensures forall v :: ReadSnapshot(r, v, t) == Get(st.data, v)
    ensures forall t' :: t' != t ==> Get(r.snapshots, t') == Get(st.snapshots, t')
    ensures ValidSite(st) ==> ValidSite(r)
  {
    st.(snapshots := st.snapshots[t := st.data])
  }

  /**
   * A snapshot keeps answering with the value the variable had when it was
   * taken, whatever commits later (here: a successful write).
   */
  lemma SnapshotSurvivesWrite(st: SiteState, t: int, tx: TxId, v: int, val: int, u: int)
    requires ValidSite(st)
    ensures ReadSnapshot(Written(Snapshotted(st, t), tx, v, val).0, u, t) == Get(st.data, u)
  {
  }

  // ---------------------------------------------------------------------------
  // The site object, updated in place
  // ---------------------------------------------------------------------------

  class DataManager {
    const siteId: int
    var data: map<int, int>
    var locks: map<int, LockEntry>
    var pending: map<int, TxId>
    var readable: map<int, bool>
    var snapshots: map<int, map<int, int>>

    /** The tables of this site as one value. */
    function State(): SiteState
      reads this
    {
      SiteState(data, locks, pending, readable, snapshots)
    }

    ghost predicate Valid()
      reads this
    {
      ValidSite(State()) && forall v :: v in data <==> Hosts(siteId, v)
    }

    /** Loads x_i = 10·i for each hosted variable; hosted replicated variables start readable. */
    constructor (index: int)
      ensures Valid() && siteId == index
      ensures State() == InitialState(index)
    {
      var d: map<int, int> := map[];
      var r: map<int, bool> := map[];
      var i := 1;
      while i <= NumVars
        invariant 1 <= i <= NumVars + 1
        invariant forall j :: j in d <==> 1 <= j < i && Hosts(index, j)
        invariant forall j :: j in d ==> d[j] == 10 * j
        invariant forall j :: j in r <==> j in d && j % 2 == 0
        invariant forall j :: j in r ==> r[j]
      {
        if i % 2 == 0 || 1 + i % 10 == index {
          d := d[i := 10 * i];
          if i % 2 == 0 {
            r := r[i := true];
          }
        }
        i := i + 1;
      }
      assert d == InitialState(index).data;
      assert r == InitialState(index).readable;
      siteId := index;
      data := d;
      locks := map[];
      pending := map[];
      readable := r;
      snapshots := map[];
    }

    method AcquireLock(tx: TxId, v: int, kind: LockKind) returns (blockers: set<TxId>)
      requires Valid()
      modifies this
      ensures Valid()
      ensures (State(), blockers) == Acquire(old(State()), tx, v, kind)
    {
      if v !in data {
        return {};
      }
      blockers := CheckLockAt(State(), tx, v, kind);
      if blockers == {} {
        if v !in locks {
          locks := locks[v := NewEntry(kind, tx)];
        } else {
          locks := locks[v := SetLock(locks[v], kind, tx)];
        }
        if kind.Write? && v in pending && pending[v] == tx {
          pending := pending - {v};
        }
      }
    }

    method SetPendingWrite(tx: TxId, v: int) returns (ok: bool)
      requires Valid()
      modifies this
      ensures Valid()
      ensures (State(), ok) == PendWrite(old(State()), tx, v)
    {
      if v in pending {
        return false;
      }
      pending := pending[v := tx];
      if v in locks && locks[v].kind.Read? && tx in locks[v].readers {
        var rest := locks[v].readers - {tx};
        if rest == {} {
          locks := locks - {v};
        } else {
          locks := locks[v := locks[v].(readers := rest)];
        }
      }
      ok := true;
    }

    /** Collects the variables `tx` takes part in, then releases them one by one. */
    method ReleaseLocks(tx: TxId)
      requires Valid()
      modifies this
      ensures Valid()
      ensures State() == Release(old(State()), tx)
    {
      var released: set<int> := {};
      var keys := locks.Keys;
      while keys != {}
        invariant unchanged(this)
        invariant keys <= locks.Keys
        invariant released == set u | u in locks && u !in keys && Involves(locks[u], tx)
        decreases keys
      {
        var u := Choose(keys);
        if Involves(locks[u], tx) {
          released := released + {u};
        }
        keys := keys - {u};
      }
      var todo := released;
      while todo != {}
        invariant todo <= released
        invariant data == old(data) && pending == old(pending)
        invariant readable == old(readable) && snapshots == old(snapshots)
        invariant locks == PartlyReleased(old(locks), tx, released - todo)
        decreases todo
      {
        var u := Choose(todo);
        if locks[u].kind.Read? {
          var rest := locks[u].readers - {tx};
          if rest == {} {
            locks := locks - {u};
          } else {
            locks := locks[u := locks[u].(readers := rest)];
          }
        } else {
          locks := locks - {u};
        }
        todo := todo - {u};
      }
      assert released == set u | u in old(locks) && Involves(old(locks)[u], tx);
    }

    method Fail()
      requires Valid()
      modifies this
      ensures Valid()
      ensures State() == Failed(old(State()))
    {
      locks := map[];
      pending := map[];
    }

    /** Marks every replicated variable non-readable, one flag at a time. */
    method Recover()
      requires Valid()
      modifies this
      ensures Valid()
      ensures State() == Recovered(old(State()))
    {
      var keys := readable.Keys;
      while keys != {}
        invariant keys <= readable.Keys && readable.Keys == old(readable).Keys
        invariant forall v :: v in readable ==> readable[v] == (if v in keys then old(readable)[v] else false)
        invariant data == old(data) && locks == old(locks)
        invariant pending == old(pending) && snapshots == old(snapshots)
        decreases keys
      {
        var v := Choose(keys);
        readable := readable[v := false];
        keys := keys - {v};
      }
      assert forall v :: v in readable ==> !readable[v];
      assert readable == map v | v in old(readable) :: false;
    }

    method Write(tx: TxId, v: int, val: int) returns (ok: bool)
      requires Valid()
      modifies this
      ensures Valid()
      ensures (State(), ok) == Written(old(State()), tx, v, val)
    {
      if v in locks && locks[v].writer == Some(tx) && locks[v].kind.Write? {
        data := data[v := val];
        if v % 2 == 0 {
          readable := readable[v := true];
        }
        return true;
      }
      return false;
    }

    method TakeSnapshot(t: int)
      requires Valid()
      modifies this
      ensures Valid()
      ensures State() == Snapshotted(old(State()), t)
    {
      snapshots := snapshots[t := data];
    }
  }

  /** The lock table after the entries at `done` (all involving `tx`) have been released. */
  ghost function PartlyReleased(locks: map<int, LockEntry>, tx: TxId, done: set<int>): map<int, LockEntry>
  {
    map u | u in locks && (u !in done || ReleaseEntry(locks[u], tx).Some?) ::
      if u in done then ReleaseEntry(locks[u], tx).value else locks[u]
  }
}
