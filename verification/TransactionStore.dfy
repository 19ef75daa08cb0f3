/** The status of a recorded transaction and the moves it may make. */
module Jobs {

  datatype JobState = Queued | Running | Succeeded | Failed | Canceled | RolledBack | NeedsReboot

  predicate Terminal(s: JobState) { !s.Queued? && !s.Running? }

  predicate AllowedTransition(current: JobState, next: JobState) {
    || (current.Queued? && (next.Running? || next.Canceled?))
    || (current.Running?
        && (next.Succeeded? || next.Failed? || next.Canceled? || next.RolledBack? || next.NeedsReboot?))
  }

  /** A status history that starts in the queue and only makes allowed moves. */
  ghost predicate Lifecycle(trail: seq<JobState>) {
    && trail != [] && trail[0] == Queued
    && forall i | 0 < i < |trail| :: AllowedTransition(trail[i - 1], trail[i])
  }

  /** The lifecycles are exactly these: queued; canceled from the queue; running; and running to any of the five
      states in which a job can end. */
  lemma LifecycleShape(trail: seq<JobState>)
    ensures Lifecycle(trail) <==>
      || trail == [Queued] || trail == [Queued, Canceled] || trail == [Queued, Running]
      || (|trail| == 3 && trail[..2] == [Queued, Running]
          && trail[2] in [Succeeded, Failed, Canceled, RolledBack, NeedsReboot])
  {
    if Lifecycle(trail) {
      assert |trail| > 1 ==> AllowedTransition(trail[0], trail[1]);
      assert |trail| > 2 ==> AllowedTransition(trail[1], trail[2]);
      assert |trail| > 3 ==> AllowedTransition(trail[2], trail[3]);
    } else if |trail| == 3 && trail[..2] == [Queued, Running] {
      assert trail[0] == trail[..2][0] && trail[1] == trail[..2][1];
    }
  }
}

/** The table of transactions: hash-chained rows in `seq` order, and a mutable status for each. */
module TransactionStore {
  import opened Wrappers
  import opened Bytes
  import opened AuditContent
  import opened AuditChain
  import opened Jobs
  import KeyOrder

  type Id = seq<byte>

  datatype NewTransaction = NewTransaction(
    requestId: seq<byte>,
    requestHash: seq<byte>,
    actionName: seq<byte>,
    riskLevel: RiskLevel,
    approvalId: Option<seq<byte>>,
    summary: seq<byte>,
    warningsJson: seq<byte>)

  datatype Table = Table(chain: seq<ChainRow>, status: map<Id, JobState>)

  datatype StoreError = DuplicateId | NotFound | InvalidTransition(from: JobState, to: JobState)

  const CURRENT_KEY_ID: string := "v1"

  function RowId(r: ChainRow): Id { r.content.transactionId }

  /** Row ids are distinct and each has a status; the chain verifies and `seq` counts 1, 2, 3, ... */
  ghost predicate Valid(key: AuditKey, t: Table) {
    && key.keyId == Ascii(CURRENT_KEY_ID)
    && ChainOk(key, t.chain)
    && (forall i | 0 <= i < |t.chain| :: t.chain[i].content.seqNo == i + 1)
    && (forall i, j | 0 <= i < j < |t.chain| :: RowId(t.chain[i]) != RowId(t.chain[j]))
    && (forall id :: id in t.status <==> exists i :: 0 <= i < |t.chain| && RowId(t.chain[i]) == id)
  }

  function NextSeq(chain: seq<ChainRow>): nat {
    if chain == [] then 1 else chain[|chain| - 1].content.seqNo + 1
  }

  function NewContent(chain: seq<ChainRow>, tx: NewTransaction, id: Id, createdAt: seq<byte>): ChainContent {
    ChainContent(NextSeq(chain), Ascii(CURRENT_KEY_ID), id, tx.requestId, tx.requestHash, tx.actionName,
                 tx.riskLevel, tx.summary, tx.approvalId, tx.warningsJson, createdAt)
  }

  /** Inserts a queued row linked to the tip of the chain; the primary key refuses a used id. */
  function Recorded(key: AuditKey, t: Table, tx: NewTransaction, id: Id, createdAt: seq<byte>): Table {
    if id in t.status then t
    else
      var row := NextRow(key, t.chain, NewContent(t.chain, tx, id, createdAt));
      Table(t.chain + [row], t.status[id := Queued])
  }

  /** The atomic compare-and-set from queued to running. */
  function Claimed(t: Table, id: Id): Table {
    if id in t.status && t.status[id] == Queued then t.(status := t.status[id := Running]) else t
  }

  function Updated(t: Table, id: Id, next: JobState): Table {
    if id in t.status && AllowedTransition(t.status[id], next) then t.(status := t.status[id := next]) else t
  }

  /** SQL compares the stored text with the cutoff byte by byte. */
  predicate NewerThan(r: ChainRow, cutoff: seq<byte>) { KeyOrder.Less(cutoff, r.content.createdAt) }

  predicate Matches(t: Table, r: ChainRow, hash: seq<byte>, cutoff: seq<byte>) {
    r.content.requestHash == hash && RowId(r) in t.status && t.status[RowId(r)] == Queued && NewerThan(r, cutoff)
  }

  /** Row `i` matches and no later row does. */
  ghost predicate NewestMatch(t: Table, hash: seq<byte>, cutoff: seq<byte>, i: nat) {
    && i < |t.chain|
    && Matches(t, t.chain[i], hash, cutoff)
    && forall j | i < j < |t.chain| :: !Matches(t, t.chain[j], hash, cutoff)
  }

  /** The most recently recorded row that is queued, fresh and has the hash. */
  function Find(t: Table, hash: seq<byte>, cutoff: seq<byte>): (r: Option<Id>)
    ensures r.Some? ==> exists i: nat :: NewestMatch(t, hash, cutoff, i) && RowId(t.chain[i]) == r.value
    ensures r.None? ==> forall i | 0 <= i < |t.chain| :: !Matches(t, t.chain[i], hash, cutoff)
    decreases |t.chain|
  {
    if t.chain == [] then None
    else
      var n := |t.chain| - 1;
      if Matches(t, t.chain[n], hash, cutoff) then
        assert NewestMatch(t, hash, cutoff, n);
        Some(RowId(t.chain[n]))
      else
        var rest := t.(chain := t.chain[..n]);
        assert forall i | 0 <= i < n ::
                 Matches(rest, rest.chain[i], hash, cutoff) <==> Matches(t, t.chain[i], hash, cutoff);
        assert forall i: nat | i < n :: NewestMatch(rest, hash, cutoff, i) ==>
                                          NewestMatch(t, hash, cutoff, i) && RowId(rest.chain[i]) == RowId(t.chain[i]);
        Find(rest, hash, cutoff)
  }

  /** The ids that cleanup cancels: queued rows that are not newer than the cutoff. */
  ghost predicate Stale(t: Table, id: Id, cutoff: seq<byte>) {
    && id in t.status && t.status[id] == Queued
    && exists i :: 0 <= i < |t.chain| && RowId(t.chain[i]) == id && !NewerThan(t.chain[i], cutoff)
  }

  function StaleIds(t: Table, cutoff: seq<byte>): (r: set<Id>)
    ensures forall id :: id in r <==> Stale(t, id, cutoff)
  {
    set i | 0 <= i < |t.chain| && RowId(t.chain[i]) in t.status && t.status[RowId(t.chain[i])] == Queued
            && !NewerThan(t.chain[i], cutoff) :: RowId(t.chain[i])
  }

  function CleanedUp(t: Table, cutoff: seq<byte>): Table {
    var stale := StaleIds(t, cutoff);
    t.(status := map id | id in t.status :: if id in stale then Canceled else t.status[id])
  }

  lemma CleanedUpIs(t: Table, cutoff: seq<byte>)
    ensures var t' := CleanedUp(t, cutoff);
            && t'.chain == t.chain && t'.status.Keys == t.status.Keys
            && forall id | id in t'.status :: t'.status[id] == if Stale(t, id, cutoff) then Canceled else t.status[id]
  {
  }

  class TransactionStore {
    const auditKey: AuditKey
    var table: Table

    constructor (key: AuditKey)
      requires key.keyId == Ascii(CURRENT_KEY_ID)
      ensures auditKey == key && table == Table([], map[]) && Valid(key, table)
    {
      auditKey := key;
      table := Table([], map[]);
    }

    method RecordPreviewed(tx: NewTransaction, id: Id, createdAt: seq<byte>) returns (r: Result<Id, StoreError>)
      requires Valid(auditKey, table)
      modifies this
      ensures Valid(auditKey, table) && table == Recorded(auditKey, old(table), tx, id, createdAt)
      ensures r == if id in old(table).status then Err(DuplicateId) else Ok(id)
      ensures r.Err? ==> table == old(table)
      ensures r.Ok? ==>
                && |table.chain| == |old(table).chain| + 1 && table.chain[..|old(table).chain|] == old(table).chain
                && table.status == old(table).status[id := Queued]
    {
      RecordedValid(auditKey, table, tx, id, createdAt);
      if id in table.status {
        return Err(DuplicateId);
      }
      var content := NewContent(table.chain, tx, id, createdAt);
      var prev := if table.chain == [] then [] else table.chain[|table.chain| - 1].chainHash;
      var row := ChainRow(content, prev, ChainHash(auditKey, content, prev));
      table := Table(table.chain + [row], table.status[id := Queued]);
      return Ok(id);
    }

    method ClaimForExecution(id: Id) returns (claimed: bool)
      requires Valid(auditKey, table)
      modifies this
      ensures Valid(auditKey, table) && table == Claimed(old(table), id)
      ensures claimed <==> id in old(table).status && old(table).status[id] == Queued
      ensures claimed ==> table.status[id] == Running
      ensures !claimed ==> table == old(table)
    {
      claimed := id in table.status && table.status[id] == Queued;
      if claimed {
        table := table.(status := table.status[id := Running]);
      }
    }

    method UpdateStatus(id: Id, next: JobState) returns (r: Result<(), StoreError>)
      requires Valid(auditKey, table)
      modifies this
      ensures Valid(auditKey, table) && table == Updated(old(table), id, next)
      ensures r.Ok? <==> id in old(table).status && AllowedTransition(old(table).status[id], next)
      ensures r.Ok? ==> table == old(table).(status := old(table).status[id := next])
      ensures r.Err? ==> table == old(table)
      ensures r == Err(NotFound) <==> id !in old(table).status
      ensures r.Err? && id in old(table).status ==> r.error == InvalidTransition(old(table).status[id], next)
    {
      if id !in table.status {
        return Err(NotFound);
      }
      var current := table.status[id];
      if !AllowedTransition(current, next) {
        return Err(InvalidTransition(current, next));
      }
      table := table.(status := table.status[id := next]);
      return Ok(());
    }

    method CleanupStaleQueued(cutoff: seq<byte>) returns (affected: nat)
      requires Valid(auditKey, table)
      modifies this
      ensures Valid(auditKey, table) && table == CleanedUp(old(table), cutoff)
      ensures affected == |StaleIds(old(table), cutoff)|
      ensures table.chain == old(table).chain && table.status.Keys == old(table).status.Keys
      ensures forall id | id in table.status ::
                table.status[id] == if Stale(old(table), id, cutoff) then Canceled else old(table).status[id]
    {
      CleanedUpIs(table, cutoff);
      StatusIsFree(auditKey, table, CleanedUp(table, cutoff));
      var stale := StaleIds(table, cutoff);
      affected := |stale|;
      table := table.(status := map id | id in table.status :: if id in stale then Canceled else table.status[id]);
    }
  }

  /** Inserting keeps the whole chain verifiable and the numbering without gaps. */
  lemma RecordedValid(key: AuditKey, t: Table, tx: NewTransaction, id: Id, createdAt: seq<byte>)
    requires Valid(key, t)
    ensures Valid(key, Recorded(key, t, tx, id, createdAt))
  {
    if id !in t.status {
      var content := NewContent(t.chain, tx, id, createdAt);
      AppendKeepsOk(key, t.chain, content);
      var t' := Recorded(key, t, tx, id, createdAt);
      assert t'.chain == t.chain + [NextRow(key, t.chain, content)];
      forall x ensures x in t'.status <==> exists i :: 0 <= i < |t'.chain| && RowId(t'.chain[i]) == x {
        if x == id {
          assert RowId(t'.chain[|t.chain|]) == x;
        } else if x in t.status {
          var i :| 0 <= i < |t.chain| && RowId(t.chain[i]) == x;
          assert RowId(t'.chain[i]) == x;
        }
      }
    }
  }

  /** No status operation touches the chain, so the audit log stays intact under all of them. */
  lemma StatusOpsKeepValid(key: AuditKey, t: Table, id: Id, next: JobState, cutoff: seq<byte>)
    requires Valid(key, t)
    ensures Valid(key, Claimed(t, id)) && Valid(key, Updated(t, id, next)) && Valid(key, CleanedUp(t, cutoff))
  {
    OpsKeepRows(t, id, next, cutoff);
    StatusIsFree(key, t, Claimed(t, id));
    StatusIsFree(key, t, Updated(t, id, next));
    StatusIsFree(key, t, CleanedUp(t, cutoff));
  }

  lemma OpsKeepRows(t: Table, id: Id, next: JobState, cutoff: seq<byte>)
    ensures forall t' | t' in {Claimed(t, id), Updated(t, id, next), CleanedUp(t, cutoff)} ::
              t'.chain == t.chain && t'.status.Keys == t.status.Keys
  {
  }

  lemma StatusIsFree(key: AuditKey, t: Table, t': Table)
    requires Valid(key, t) && t'.chain == t.chain && t'.status.Keys == t.status.Keys
    ensures Valid(key, t')
  {
  }
}
