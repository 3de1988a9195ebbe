/**
 * The transaction record (Transaction.java) in the shape the coordinator
 * uses it: the sites a transaction touched, each with the tick of its first
 * access, and the writes it buffers until commit, each with the sites whose
 * write locks it took.
 */
module Txn {
  import opened Common

  /** One buffered write: variable, new value, and the sites to apply it at. */
  datatype WriteRecord = WriteRecord(varId: int, value: int, sites: seq<int>)

  datatype Transaction = Transaction(
    name: TxId,
    isReadOnly: bool,
    beginTime: int,
    accessedSites: map<int, int>,   // site -> tick of first access
    writes: seq<WriteRecord>,       // buffered writes, oldest first
    blockedInstrCnt: int)           // instructions of this transaction still waiting

  /** The three-argument constructor: nothing accessed, nothing buffered yet. */
  function NewTransaction(name: TxId, ticks: int, isReadOnly: bool): (t: Transaction)
    ensures t.name == name && t.isReadOnly == isReadOnly && t.beginTime == ticks
    ensures t.accessedSites == map[] && t.writes == [] && t.blockedInstrCnt == 0
  {
    Transaction(name, isReadOnly, ticks, map[], [], 0)
  }

  /** The two-argument constructor makes a read-write transaction. */
  function NewReadWrite(name: TxId, ticks: int): (t: Transaction)
    ensures !t.isReadOnly
    ensures t == NewTransaction(name, ticks, false)
  {
    NewTransaction(name, ticks, false)
  }

  /**
   * read: the transaction's own most recent buffered value for `varId`, or
   * `None` when it has buffered no write to it.
   */
  function Read(t: Transaction, varId: int): (r: Option<int>)
    ensures r.None? <==> forall i :: 0 <= i < |t.writes| ==> t.writes[i].varId != varId
    decreases |t.writes|
  {
    var ws := t.writes;
    if ws == [] then None
    else if ws[|ws| - 1].varId == varId then Some(ws[|ws| - 1].value)
    else
      var prefix := ws[..|ws| - 1];
      assert forall i :: 0 <= i < |prefix| ==> prefix[i] == ws[i];
      Read(t.(writes := prefix), varId)
  }

  /** The value read is that of the last buffered write to the variable. */
  lemma {:induction false} ReadLatest(t: Transaction, varId: int)
    requires Read(t, varId).Some?
    ensures exists i ::
      && 0 <= i < |t.writes| && t.writes[i].varId == varId && t.writes[i].value == Read(t, varId).value
      && forall j :: i < j < |t.writes| ==> t.writes[j].varId != varId
    decreases |t.writes|
  {
    var ws := t.writes;
    var n := |ws| - 1;
    if ws[n].varId == varId {
      assert ws[n].value == Read(t, varId).value;
    } else {
      var t' := t.(writes := ws[..n]);
      ReadLatest(t', varId);
      var i :| && 0 <= i < |t'.writes| && t'.writes[i].varId == varId && t'.writes[i].value == Read(t', varId).value
               && forall j :: i < j < |t'.writes| ==> t'.writes[j].varId != varId;
      assert ws[i] == t'.writes[i];
      forall j | i < j < |ws|
        ensures ws[j].varId != varId
      {
        if j < n {
          assert ws[j] == t'.writes[j];
        }
      }
    }
  }

  /**
   * Reading your own write: after buffering `value` for `varId` the
   * transaction reads it back, and its reads of other variables are as
   * before.
   */
  lemma {:induction false} ReadOwnWrite(t: Transaction, varId: int, value: int, sites: seq<int>, other: int)
    requires other != varId
    ensures Read(t.(writes := t.writes + [WriteRecord(varId, value, sites)]), varId) == Some(value)
    ensures Read(t.(writes := t.writes + [WriteRecord(varId, value, sites)]), other) == Read(t, other)
  {
    var ws := t.writes + [WriteRecord(varId, value, sites)];
    assert ws[..|ws| - 1] == t.writes;
  }
}
