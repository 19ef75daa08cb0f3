/** Preview, approve, execute: any number of connections working on one table at the same time.
    Every interleaving is a sequence of steps, each of which is atomic in the daemon. */
module ApprovalProtocol {
  import opened Wrappers
  import opened Bytes
  import opened AuditContent
  import opened AuditChain
  import opened Jobs
  import opened TransactionStore
  import CanonicalJson
  import KeyOrder
  import RequestHash

  /** Parameters as JSON objects are: keys are distinct at every depth. */
  type Params = v: CanonicalJson.Json | CanonicalJson.WellFormed(v) witness CanonicalJson.Null

  datatype Request = Request(action: seq<byte>, params: Params)

  /** What the action's specification says about reboots and rollbacks. */
  datatype ActionSpec = ActionSpec(rebootRequired: bool, rollbackAvailable: bool, hasRollbackSpec: bool)

  /** Where a connection that serves an execute request stands. */
  datatype Handler =
    | Looking(req: Request)                             // the approval matched; lookup comes next
    | Claiming(req: Request, id: Id)                    // a queued row was found
    | Announcing(req: Request, id: Id)                  // the row was claimed; JobStarted comes next
    | Executing(req: Request, id: Id)                   // JobStarted was sent
    | Checking(req: Request, id: Id, final: JobState)   // the action ran; the current status is read next
    | Writing(req: Request, id: Id, final: JobState)    // the move was allowed; the status is written next

  datatype Event =
    | Previewed(id: Id, req: Request)
    | Started(id: Id, req: Request)
    | Executed(id: Id, req: Request)

  /** The daemon: the table, the connections at work, and two history variables:
      what happened so far, and every status each row has had. */
  datatype State = State(
    table: Table,
    handlers: map<nat, Handler>,
    log: seq<Event>,
    trails: map<Id, seq<JobState>>)

  datatype Config = Config(key: AuditKey, digest: seq<byte> -> seq<byte>)

  datatype Step =
    | Preview(req: Request, tx: NewTransaction, id: Id, createdAt: seq<byte>)
    | Begin(h: nat, req: Request, approvalHash: seq<byte>)
    | Lookup(h: nat, cutoff: seq<byte>)
    | Claim(h: nat)
    | Announce(h: nat, sent: bool)
    | Run(h: nat, spec: ActionSpec, ok: bool, rollbackOk: bool)
    | Check(h: nat)
    | Write(h: nat)
    | Fail(h: nat)             // a store call failed or the connection died; the handler stops
    | Cleanup(cutoff: seq<byte>)
    | Restart                  // every handler is lost, the table stays

  function Hash(c: Config, req: Request): seq<byte> {
    RequestHash.ComputeRequestHash(c.digest, req.action, req.params)
  }

  function InitialStatus(spec: ActionSpec, ok: bool): JobState {
    if ok then (if spec.rebootRequired then NeedsReboot else Succeeded) else Failed
  }

  /** Rolls a failed action back when that is possible; a failed rollback leaves the failure. */
  function AttemptRollback(spec: ActionSpec, status: JobState, rollbackOk: bool): JobState {
    if status != Failed || !spec.rollbackAvailable then status
    else if !spec.hasRollbackSpec then status
    else if rollbackOk then RolledBack
    else status
  }

  /** The final status is terminal and says what happened. */
  lemma FinalStatus(spec: ActionSpec, ok: bool, rollbackOk: bool)
    ensures var final := AttemptRollback(spec, InitialStatus(spec, ok), rollbackOk);
            && AllowedTransition(Running, final) && final != Canceled
            && (final == RolledBack <==> !ok && spec.rollbackAvailable && spec.hasRollbackSpec && rollbackOk)
            && (final == NeedsReboot <==> ok && spec.rebootRequired)
            && (final == Succeeded <==> ok && !spec.rebootRequired)
  {
  }

  /** Moves a row to a new status and remembers the move. */
  function Track(trails: map<Id, seq<JobState>>, id: Id, next: JobState): map<Id, seq<JobState>> {
    trails[id := (if id in trails then trails[id] else []) + [next]]
  }

  function Stop(s: State, h: nat): State {
    s.(handlers := s.handlers - {h})
  }

  /** `handle_preview`: a recorded row, or no change when the store refuses it. */
  function DoPreview(c: Config, s: State, req: Request, tx: NewTransaction, id: Id, createdAt: seq<byte>): State {
    if id in s.table.status then s
    else State(Recorded(c.key, s.table, tx.(requestHash := Hash(c, req), actionName := req.action), id, createdAt),
               s.handlers, s.log + [Previewed(id, req)], s.trails[id := [Queued]])
  }

  /** An execute request gets a handler when its approval matches the recomputed hash. */
  function DoBegin(c: Config, s: State, h: nat, req: Request, approvalHash: seq<byte>): State {
    if h in s.handlers || approvalHash != Hash(c, req) then s
    else s.(handlers := s.handlers[h := Looking(req)])
  }

  function DoLookup(c: Config, s: State, h: nat, cutoff: seq<byte>): State {
    if h in s.handlers && s.handlers[h].Looking? then
      match Find(s.table, Hash(c, s.handlers[h].req), cutoff)
      case None => Stop(s, h)
      case Some(id) => s.(handlers := s.handlers[h := Claiming(s.handlers[h].req, id)])
    else s
  }

  function DoClaim(s: State, h: nat): State {
    if h in s.handlers && s.handlers[h].Claiming? then
      var hd := s.handlers[h];
      if hd.id in s.table.status && s.table.status[hd.id] == Queued then
        State(Claimed(s.table, hd.id), s.handlers[h := Announcing(hd.req, hd.id)], s.log,
              Track(s.trails, hd.id, Running))
      else Stop(s, h)
    else s
  }

  function DoAnnounce(s: State, h: nat, sent: bool): State {
    if h in s.handlers && s.handlers[h].Announcing? then
      var hd := s.handlers[h];
      if sent then s.(handlers := s.handlers[h := Executing(hd.req, hd.id)], log := s.log + [Started(hd.id, hd.req)])
      else Stop(s, h)
    else s
  }

  function DoRun(s: State, h: nat, final: JobState): State {
    if h in s.handlers && s.handlers[h].Executing? then
      var hd := s.handlers[h];
      s.(handlers := s.handlers[h := Checking(hd.req, hd.id, final)], log := s.log + [Executed(hd.id, hd.req)])
    else s
  }

  /** The first half of `update_status`: the present status is read and the move is checked. */
  function DoCheck(s: State, h: nat): State {
    if h in s.handlers && s.handlers[h].Checking? then
      var hd := s.handlers[h];
      if hd.id in s.table.status && AllowedTransition(s.table.status[hd.id], hd.final)
      then s.(handlers := s.handlers[h := Writing(hd.req, hd.id, hd.final)])
      else Stop(s, h)
    else s
  }

  /** The second half of `update_status`: the status is written whatever it is by now. */
  function DoWrite(s: State, h: nat): State {
    if h in s.handlers && s.handlers[h].Writing? then
      var hd := s.handlers[h];
      if hd.id in s.table.status then
        State(s.table.(status := s.table.status[hd.id := hd.final]), s.handlers - {h}, s.log,
              Track(s.trails, hd.id, hd.final))
      else Stop(s, h)
    else s
  }

  function DoCleanup(s: State, cutoff: seq<byte>): State {
    var stale := StaleIds(s.table, cutoff);
    s.(table := CleanedUp(s.table, cutoff),
       trails := map id | id in s.trails :: if id in stale then s.trails[id] + [Canceled] else s.trails[id])
  }

  function Apply(c: Config, s: State, step: Step): State {
    match step
    case Preview(req, tx, id, createdAt) => DoPreview(c, s, req, tx, id, createdAt)
    case Begin(h, req, approvalHash) => DoBegin(c, s, h, req, approvalHash)
    case Lookup(h, cutoff) => DoLookup(c, s, h, cutoff)
    case Claim(h) => DoClaim(s, h)
    case Announce(h, sent) => DoAnnounce(s, h, sent)
    case Run(h, spec, ok, rollbackOk) => DoRun(s, h, AttemptRollback(spec, InitialStatus(spec, ok), rollbackOk))
    case Check(h) => DoCheck(s, h)
    case Write(h) => DoWrite(s, h)
    case Fail(h) => Stop(s, h)
    case Cleanup(cutoff) => DoCleanup(s, cutoff)
    case Restart => s.(handlers := map[])
  }

  function Init(): State { State(Table([], map[]), map[], [], map[]) }

  /** The state after a run from `s`. */
  function After(c: Config, s: State, steps: seq<Step>): State
    decreases |steps|
  {
    if steps == [] then s else After(c, Apply(c, s, steps[0]), steps[1..])
  }

  // ----- The invariant -----

  /** How often the row was started, run and previewed. */
  function Starts(log: seq<Event>, id: Id): nat {
    if log == [] then 0
    else Starts(log[..|log| - 1], id) + if log[|log| - 1].Started? && log[|log| - 1].id == id then 1 else 0
  }

  function Runs(log: seq<Event>, id: Id): nat {
    if log == [] then 0
    else Runs(log[..|log| - 1], id) + if log[|log| - 1].Executed? && log[|log| - 1].id == id then 1 else 0
  }

  function Previews(log: seq<Event>, id: Id): nat {
    if log == [] then 0
    else Previews(log[..|log| - 1], id) + if log[|log| - 1].Previewed? && log[|log| - 1].id == id then 1 else 0
  }

  /** The row was previewed under the hash. */
  ghost predicate PreviewedAs(c: Config, log: seq<Event>, id: Id, hash: seq<byte>) {
    exists i :: 0 <= i < |log| && log[i].Previewed? && log[i].id == id && Hash(c, log[i].req) == hash
  }

  /** The handler has claimed its row and has not given it up. */
  predicate Holding(hd: Handler) { hd.Announcing? || hd.Executing? || hd.Checking? || hd.Writing? }

  ghost predicate Holds(handlers: map<nat, Handler>, h: nat, id: Id) {
    h in handlers && Holding(handlers[h]) && handlers[h].id == id
  }

  /** The row is running and `h` is the only handler that holds it. */
  ghost predicate HeldOnce(status: map<Id, JobState>, handlers: map<nat, Handler>, h: nat, id: Id) {
    && id in status && status[id] == Running
    && forall g | Holds(handlers, g, id) :: g == h
  }

  ghost predicate HandlerOk(c: Config, status: map<Id, JobState>, handlers: map<nat, Handler>, log: seq<Event>, h: nat)
    requires h in handlers
  {
    var hd := handlers[h];
    hd.Looking? || (
      && PreviewedAs(c, log, hd.id, Hash(c, hd.req))
      && (Holding(hd) ==> HeldOnce(status, handlers, h, hd.id))
      && (hd.Announcing? ==> Starts(log, hd.id) == 0)
      && (hd.Executing? ==> Starts(log, hd.id) == 1 && Runs(log, hd.id) == 0)
      && (hd.Checking? || hd.Writing? ==> AllowedTransition(Running, hd.final)))
  }

  ghost predicate HandlersOk(c: Config, status: map<Id, JobState>, handlers: map<nat, Handler>, log: seq<Event>) {
    forall h | h in handlers :: HandlerOk(c, status, handlers, log, h)
  }

  /** The trail of each row is a lifecycle that ends in its present status. */
  ghost predicate TrailsOk(status: map<Id, JobState>, trails: map<Id, seq<JobState>>) {
    && trails.Keys == status.Keys
    && forall id | id in trails :: Lifecycle(trails[id]) && trails[id][|trails[id]| - 1] == status[id]
  }

  /** What the log says about one row. */
  ghost predicate CountsOk(status: map<Id, JobState>, log: seq<Event>, id: Id) {
    && Runs(log, id) <= Starts(log, id) <= 1
    && Previews(log, id) == (if id in status then 1 else 0)
    && (Starts(log, id) > 0 ==> id in status && status[id] != Queued)
  }

  /** An earlier event previewed the same row under the same hash. */
  ghost predicate Backed(c: Config, log: seq<Event>, i: nat)
    requires i < |log|
  {
    log[i].Previewed? || PreviewedAs(c, log[..i], log[i].id, Hash(c, log[i].req))
  }

  ghost predicate LogOk(c: Config, status: map<Id, JobState>, log: seq<Event>) {
    && (forall id :: CountsOk(status, log, id))
    && (forall i | 0 <= i < |log| :: Backed(c, log, i))
  }

  /** Every row of the table was previewed under the hash that it stores. */
  ghost predicate RowsPreviewed(c: Config, chain: seq<ChainRow>, log: seq<Event>) {
    forall i | 0 <= i < |chain| :: PreviewedAs(c, log, RowId(chain[i]), chain[i].content.requestHash)
  }

  ghost predicate Safe(c: Config, s: State) {
    && HandlersOk(c, s.table.status, s.handlers, s.log)
    && TrailsOk(s.table.status, s.trails)
    && LogOk(c, s.table.status, s.log)
    && RowsPreviewed(c, s.table.chain, s.log)
  }

  // ----- Appending to the log -----

  lemma PreviewedGrows(c: Config, log: seq<Event>, e: Event, id: Id, hash: seq<byte>)
    requires PreviewedAs(c, log, id, hash)
    ensures PreviewedAs(c, log + [e], id, hash)
  {
    var i :| 0 <= i < |log| && log[i].Previewed? && log[i].id == id && Hash(c, log[i].req) == hash;
    assert (log + [e])[i] == log[i];
  }

  lemma CountsGrow(log: seq<Event>, e: Event, id: Id)
    ensures Starts(log + [e], id) == Starts(log, id) + if e.Started? && e.id == id then 1 else 0
    ensures Runs(log + [e], id) == Runs(log, id) + if e.Executed? && e.id == id then 1 else 0
    ensures Previews(log + [e], id) == Previews(log, id) + if e.Previewed? && e.id == id then 1 else 0
  {
    assert (log + [e])[..|log|] == log;
  }

  lemma BackedGrows(c: Config, log: seq<Event>, e: Event)
    requires forall i | 0 <= i < |log| :: Backed(c, log, i)
    requires e.Previewed? || PreviewedAs(c, log, e.id, Hash(c, e.req))
    ensures forall i | 0 <= i < |log| + 1 :: Backed(c, log + [e], i)
  {
    var log' := log + [e];
    forall i | 0 <= i < |log'| ensures Backed(c, log', i) {
      if i < |log| {
        assert Backed(c, log, i) && log'[..i] == log[..i];
      } else {
        assert log'[..i] == log;
      }
    }
  }

  lemma RowsPreviewedGrow(c: Config, chain: seq<ChainRow>, log: seq<Event>, e: Event)
    requires RowsPreviewed(c, chain, log)
    ensures RowsPreviewed(c, chain, log + [e])
  {
    forall i | 0 <= i < |chain| ensures PreviewedAs(c, log + [e], RowId(chain[i]), chain[i].content.requestHash) {
      PreviewedGrows(c, log, e, RowId(chain[i]), chain[i].content.requestHash);
    }
  }

  /** A handler is untouched by a step that leaves it in place, keeps its row as it is,
      and lets no other handler hold that row. */
  lemma HandlerFrame(c: Config, status: map<Id, JobState>, handlers: map<nat, Handler>, log: seq<Event>,
                     status': map<Id, JobState>, handlers': map<nat, Handler>, log': seq<Event>, g: nat)
    requires g in handlers && g in handlers' && handlers'[g] == handlers[g] && HandlerOk(c, status, handlers, log, g)
    requires !handlers[g].Looking? ==>
      (log' == log
       || exists e :: log' == log + [e] && (e.Previewed? || e.id != handlers[g].id || !Holding(handlers[g])))
    requires Holding(handlers[g]) ==>
      var id := handlers[g].id;
      && id in status && id in status' && status'[id] == status[id]
      && forall k | Holds(handlers', k, id) :: Holds(handlers, k, id)
    ensures HandlerOk(c, status', handlers', log', g)
  {
    var hd := handlers[g];
    if !hd.Looking? && log' != log {
      var e :| log' == log + [e] && (e.Previewed? || e.id != hd.id || !Holding(hd));
      PreviewedGrows(c, log, e, hd.id, Hash(c, hd.req));
      CountsGrow(log, e, hd.id);
    }
  }

  // ----- Every step keeps the invariant -----

  lemma PreviewSafe(c: Config, s: State, req: Request, tx: NewTransaction, id: Id, createdAt: seq<byte>)
    requires Safe(c, s) && id !in s.table.status
    ensures Safe(c, DoPreview(c, s, req, tx, id, createdAt))
  {
    var s' := DoPreview(c, s, req, tx, id, createdAt);
    var e := Previewed(id, req);
    var status, status' := s.table.status, s'.table.status;
    forall g | g in s.handlers ensures HandlerOk(c, status', s.handlers, s'.log, g) {
      assert HandlerOk(c, status, s.handlers, s.log, g);
      HandlerFrame(c, status, s.handlers, s.log, status', s.handlers, s'.log, g);
    }
    forall x ensures CountsOk(status', s'.log, x) {
      assert CountsOk(status, s.log, x);
      CountsGrow(s.log, e, x);
    }
    BackedGrows(c, s.log, e);
    RowsPreviewedGrow(c, s.table.chain, s.log, e);
    assert s'.log[|s.log|] == e && PreviewedAs(c, s'.log, id, Hash(c, req));
  }

  lemma StopSafe(c: Config, s: State, h: nat)
    requires Safe(c, s)
    ensures Safe(c, Stop(s, h))
  {
    var handlers' := s.handlers - {h};
    forall g | g in handlers' ensures HandlerOk(c, s.table.status, handlers', s.log, g) {
      assert HandlerOk(c, s.table.status, s.handlers, s.log, g);
      HandlerFrame(c, s.table.status, s.handlers, s.log, s.table.status, handlers', s.log, g);
    }
  }

  /** A handler that moves to its next place disturbs no other handler, as long as it holds no row
      that it did not hold before. */
  lemma MoveSafe(c: Config, s: State, h: nat, hd: Handler)
    requires Safe(c, s) && (Holding(hd) ==> Holds(s.handlers, h, hd.id))
    requires HandlerOk(c, s.table.status, s.handlers[h := hd], s.log, h)
    ensures Safe(c, s.(handlers := s.handlers[h := hd]))
  {
    var handlers' := s.handlers[h := hd];
    forall g | g in handlers' ensures HandlerOk(c, s.table.status, handlers', s.log, g) {
      if g != h {
        assert HandlerOk(c, s.table.status, s.handlers, s.log, g);
        HandlerFrame(c, s.table.status, s.handlers, s.log, s.table.status, handlers', s.log, g);
      }
    }
  }

  lemma LookupSafe(c: Config, s: State, h: nat, cutoff: seq<byte>)
    requires Safe(c, s)
    ensures Safe(c, DoLookup(c, s, h, cutoff))
  {
    if h in s.handlers && s.handlers[h].Looking? {
      StopSafe(c, s, h);
      var req := s.handlers[h].req;
      var found := Find(s.table, Hash(c, req), cutoff);
      if found.Some? {
        var i: nat :| NewestMatch(s.table, Hash(c, req), cutoff, i) && RowId(s.table.chain[i]) == found.value;
        assert PreviewedAs(c, s.log, found.value, Hash(c, req));
        MoveSafe(c, s, h, Claiming(req, found.value));
      }
    }
  }

  lemma TrackLifecycle(status: map<Id, JobState>, trails: map<Id, seq<JobState>>, id: Id, next: JobState)
    requires TrailsOk(status, trails) && id in status && AllowedTransition(status[id], next)
    ensures TrailsOk(status[id := next], Track(trails, id, next))
  {
  }

  lemma ClaimSafe(c: Config, s: State, h: nat)
    requires Safe(c, s)
    ensures Safe(c, DoClaim(s, h))
  {
    if h in s.handlers && s.handlers[h].Claiming? {
      StopSafe(c, s, h);
      var hd := s.handlers[h];
      var status := s.table.status;
      assert HandlerOk(c, status, s.handlers, s.log, h);
      if hd.id in status && status[hd.id] == Queued {
        var status', handlers' := status[hd.id := Running], s.handlers[h := Announcing(hd.req, hd.id)];
        assert CountsOk(status, s.log, hd.id);
        forall g | g in handlers' ensures HandlerOk(c, status', handlers', s.log, g) {
          forall k | k in s.handlers ensures !Holds(s.handlers, k, hd.id) {
            assert HandlerOk(c, status, s.handlers, s.log, k);
          }
          if g != h {
            assert HandlerOk(c, status, s.handlers, s.log, g);
            HandlerFrame(c, status, s.handlers, s.log, status', handlers', s.log, g);
          }
        }
        forall x ensures CountsOk(status', s.log, x) {
          assert CountsOk(status, s.log, x);
        }
        TrackLifecycle(status, s.trails, hd.id, Running);
      }
    }
  }

  /** The holder of a row moves on and logs an event about that row. */
  lemma ProgressSafe(c: Config, s: State, h: nat, hd: Handler, e: Event)
    requires Safe(c, s) && h in s.handlers && Holding(s.handlers[h]) && Holding(hd) && !e.Previewed?
    requires hd.id == e.id == s.handlers[h].id && hd.req == e.req == s.handlers[h].req
    requires || (hd.Executing? && e.Started? && s.handlers[h].Announcing?)
             || (hd.Checking? && e.Executed? && s.handlers[h].Executing? && AllowedTransition(Running, hd.final))
    ensures Safe(c, s.(handlers := s.handlers[h := hd], log := s.log + [e]))
  {
    var handlers', log' := s.handlers[h := hd], s.log + [e];
    var status := s.table.status;
    assert HandlerOk(c, status, s.handlers, s.log, h) && CountsOk(status, s.log, hd.id);
    PreviewedGrows(c, s.log, e, hd.id, Hash(c, hd.req));
    CountsGrow(s.log, e, hd.id);
    forall g | g in handlers' ensures HandlerOk(c, status, handlers', log', g) {
      assert forall k | Holds(handlers', k, hd.id) :: Holds(s.handlers, k, hd.id);
      if g != h {
        assert HandlerOk(c, status, s.handlers, s.log, g);
        assert Holds(s.handlers, h, hd.id);
        HandlerFrame(c, status, s.handlers, s.log, status, handlers', log', g);
      }
    }
    forall x ensures CountsOk(status, log', x) {
      assert CountsOk(status, s.log, x);
      CountsGrow(s.log, e, x);
    }
    BackedGrows(c, s.log, e);
    RowsPreviewedGrow(c, s.table.chain, s.log, e);
  }

  lemma AnnounceSafe(c: Config, s: State, h: nat, sent: bool)
    requires Safe(c, s)
    ensures Safe(c, DoAnnounce(s, h, sent))
  {
    if h in s.handlers && s.handlers[h].Announcing? {
      StopSafe(c, s, h);
      var hd := s.handlers[h];
      ProgressSafe(c, s, h, Executing(hd.req, hd.id), Started(hd.id, hd.req));
    }
  }

  lemma RunSafe(c: Config, s: State, h: nat, final: JobState)
    requires Safe(c, s) && AllowedTransition(Running, final)
    ensures Safe(c, DoRun(s, h, final))
  {
    if h in s.handlers && s.handlers[h].Executing? {
      var hd := s.handlers[h];
      ProgressSafe(c, s, h, Checking(hd.req, hd.id, final), Executed(hd.id, hd.req));
    }
  }

  lemma CheckSafe(c: Config, s: State, h: nat)
    requires Safe(c, s)
    ensures Safe(c, DoCheck(s, h))
  {
    if h in s.handlers && s.handlers[h].Checking? {
      StopSafe(c, s, h);
      var hd := s.handlers[h];
      assert HandlerOk(c, s.table.status, s.handlers, s.log, h);
      if AllowedTransition(Running, hd.final) {
        var next := Writing(hd.req, hd.id, hd.final);
        var handlers' := s.handlers[h := next];
        assert HeldOnce(s.table.status, handlers', h, hd.id) by {
          assert forall k | Holds(handlers', k, hd.id) :: Holds(s.handlers, k, hd.id);
        }
        assert next == handlers'[h];
        MoveSafe(c, s, h, next);
      }
    }
  }

  /** The status that is overwritten is still the one that was checked: the holder's row is running. */
  lemma WriteSafe(c: Config, s: State, h: nat)
    requires Safe(c, s)
    ensures Safe(c, DoWrite(s, h))
  {
    if h in s.handlers && s.handlers[h].Writing? {
      var hd := s.handlers[h];
      var status := s.table.status;
      var status', handlers' := status[hd.id := hd.final], s.handlers - {h};
      assert HandlerOk(c, status, s.handlers, s.log, h) && Holds(s.handlers, h, hd.id);
      forall g | g in handlers' ensures HandlerOk(c, status', handlers', s.log, g) {
        assert HandlerOk(c, status, s.handlers, s.log, g);
        HandlerFrame(c, status, s.handlers, s.log, status', handlers', s.log, g);
      }
      forall x ensures CountsOk(status', s.log, x) {
        assert CountsOk(status, s.log, x);
      }
      TrackLifecycle(status, s.trails, hd.id, hd.final);
    }
  }

  lemma CleanupSafe(c: Config, s: State, cutoff: seq<byte>)
    requires Safe(c, s)
    ensures Safe(c, DoCleanup(s, cutoff))
  {
    var s' := DoCleanup(s, cutoff);
    var status, status' := s.table.status, s'.table.status;
    forall g | g in s.handlers ensures HandlerOk(c, status', s.handlers, s.log, g) {
      assert HandlerOk(c, status, s.handlers, s.log, g);
      HandlerFrame(c, status, s.handlers, s.log, status', s.handlers, s.log, g);
    }
    forall x ensures CountsOk(status', s.log, x) {
      assert CountsOk(status, s.log, x);
    }
    CleanupTrails(s, cutoff);
  }

  lemma CleanupTrails(s: State, cutoff: seq<byte>)
    requires TrailsOk(s.table.status, s.trails)
    ensures TrailsOk(DoCleanup(s, cutoff).table.status, DoCleanup(s, cutoff).trails)
  {
    var s' := DoCleanup(s, cutoff);
    var stale := StaleIds(s.table, cutoff);
    forall id | id in s'.trails
      ensures Lifecycle(s'.trails[id]) && s'.trails[id][|s'.trails[id]| - 1] == s'.table.status[id]
    {
      if id in stale {
        assert Stale(s.table, id, cutoff);
        LifecycleExtends(s.trails[id], Canceled);
      }
    }
  }

  lemma LifecycleExtends(trail: seq<JobState>, next: JobState)
    requires Lifecycle(trail) && AllowedTransition(trail[|trail| - 1], next)
    ensures Lifecycle(trail + [next])
  {
  }

  lemma StepSafe(c: Config, s: State, step: Step)
    requires Safe(c, s)
    ensures Safe(c, Apply(c, s, step))
  {
    match step
    case Preview(req, tx, id, createdAt) =>
      if id !in s.table.status {
        PreviewSafe(c, s, req, tx, id, createdAt);
      }
    case Begin(h, req, approvalHash) =>
      if h !in s.handlers {
        MoveSafe(c, s, h, Looking(req));
      }
    case Lookup(h, cutoff) => LookupSafe(c, s, h, cutoff);
    case Claim(h) => ClaimSafe(c, s, h);
    case Announce(h, sent) => AnnounceSafe(c, s, h, sent);
    case Run(h, spec, ok, rollbackOk) =>
      FinalStatus(spec, ok, rollbackOk);
      RunSafe(c, s, h, AttemptRollback(spec, InitialStatus(spec, ok), rollbackOk));
    case Check(h) => CheckSafe(c, s, h);
    case Write(h) => WriteSafe(c, s, h);
    case Fail(h) => StopSafe(c, s, h);
    case Cleanup(cutoff) => CleanupSafe(c, s, cutoff);
    case Restart =>
  }

  // ----- What holds after every run -----

  ghost predicate Inv(c: Config, s: State) { Valid(c.key, s.table) && Safe(c, s) }

  lemma StepKeepsRows(c: Config, s: State, step: Step)
    requires !step.Preview?
    ensures var t := Apply(c, s, step).table;
            t.chain == s.table.chain && t.status.Keys == s.table.status.Keys
  {
  }

  lemma StepValid(c: Config, s: State, step: Step)
    requires Inv(c, s)
    ensures Valid(c.key, Apply(c, s, step).table)
  {
    if step.Preview? {
      var tx := step.tx.(requestHash := Hash(c, step.req), actionName := step.req.action);
      RecordedValid(c.key, s.table, tx, step.id, step.createdAt);
    } else {
      StepKeepsRows(c, s, step);
      StatusIsFree(c.key, s.table, Apply(c, s, step).table);
    }
  }

  lemma InitInv(c: Config)
    requires c.key.keyId == Ascii(CURRENT_KEY_ID)
    ensures Inv(c, Init())
  {
    forall id ensures CountsOk(map[], [], id) {
    }
  }

  lemma StepKeepsInv(c: Config, s: State, step: Step)
    requires Inv(c, s)
    ensures Inv(c, Apply(c, s, step))
  {
    StepValid(c, s, step);
    StepSafe(c, s, step);
  }

  /** The invariant holds after every interleaving of any number of connections. */
  lemma {:induction false} RunKeepsInv(c: Config, s: State, steps: seq<Step>)
    requires Inv(c, s)
    ensures Inv(c, After(c, s, steps))
    decreases |steps|
  {
    if steps != [] {
      StepKeepsInv(c, s, steps[0]);
      RunKeepsInv(c, Apply(c, s, steps[0]), steps[1..]);
    }
  }

  /** A previewed row is started at most once and run at most once, and only after it was started;
      two handlers never hold the same row; every row's status history is a lifecycle. */
  lemma EveryRunIsSafe(c: Config, steps: seq<Step>)
    requires c.key.keyId == Ascii(CURRENT_KEY_ID)
    ensures var s := After(c, Init(), steps);
            && (forall id :: Runs(s.log, id) <= Starts(s.log, id) <= Previews(s.log, id) <= 1)
            && (forall g, h, id | Holds(s.handlers, g, id) && Holds(s.handlers, h, id) :: g == h)
            && (forall id | id in s.table.status ::
                  id in s.trails && Lifecycle(s.trails[id]) && s.trails[id][|s.trails[id]| - 1] == s.table.status[id])
  {
    InitInv(c);
    RunKeepsInv(c, Init(), steps);
    var s := After(c, Init(), steps);
    forall id ensures Runs(s.log, id) <= Starts(s.log, id) <= Previews(s.log, id) <= 1 {
      assert CountsOk(s.table.status, s.log, id);
    }
    forall g, h, id | Holds(s.handlers, g, id) && Holds(s.handlers, h, id) ensures g == h {
      assert HandlerOk(c, s.table.status, s.handlers, s.log, g);
    }
  }

  ghost predicate HasRow(t: Table, id: Id) { exists i :: 0 <= i < |t.chain| && RowId(t.chain[i]) == id }

  /** The audit log stays intact and gap-free in every run, with one row for each preview. */
  lemma ChainIntactInEveryRun(c: Config, steps: seq<Step>)
    requires c.key.keyId == Ascii(CURRENT_KEY_ID)
    ensures var t := After(c, Init(), steps).table;
            ChainOk(c.key, t.chain) && FirstFault(c.key, t.chain, |t.chain|)
            && forall i | 0 <= i < |t.chain| :: t.chain[i].content.seqNo == i + 1
    ensures var s := After(c, Init(), steps);
            && (forall i, j | 0 <= i < j < |s.table.chain| :: RowId(s.table.chain[i]) != RowId(s.table.chain[j]))
            && (forall id :: Previews(s.log, id) == if HasRow(s.table, id) then 1 else 0)
  {
    InitInv(c);
    RunKeepsInv(c, Init(), steps);
    var s := After(c, Init(), steps);
    forall id ensures Previews(s.log, id) == if HasRow(s.table, id) then 1 else 0 {
      assert CountsOk(s.table.status, s.log, id);
    }
  }

  /** The status of a row stays, or makes an allowed move that is appended to the row's trail. */
  ghost predicate StatusStep(s: State, s': State, id: Id) {
    && id in s.table.status && id in s.trails && id in s'.table.status && id in s'.trails
    && (|| (s'.table.status[id] == s.table.status[id] && s'.trails[id] == s.trails[id])
        || (AllowedTransition(s.table.status[id], s'.table.status[id])
            && s'.trails[id] == s.trails[id] + [s'.table.status[id]]))
  }

  lemma WriteIsAllowed(c: Config, s: State, h: nat, id: Id)
    requires HandlersOk(c, s.table.status, s.handlers, s.log) && id in s.table.status && id in s.trails
    ensures StatusStep(s, DoWrite(s, h), id)
  {
    if h in s.handlers && s.handlers[h].Writing? {
      assert HandlerOk(c, s.table.status, s.handlers, s.log, h);
    }
  }

  lemma PreviewIsAllowed(c: Config, s: State, req: Request, tx: NewTransaction, x: Id, createdAt: seq<byte>, id: Id)
    requires id in s.table.status && id in s.trails
    ensures StatusStep(s, DoPreview(c, s, req, tx, x, createdAt), id)
  {
  }

  lemma ClaimIsAllowed(s: State, h: nat, id: Id)
    requires id in s.table.status && id in s.trails
    ensures StatusStep(s, DoClaim(s, h), id)
  {
  }

  lemma CleanupIsAllowed(s: State, cutoff: seq<byte>, id: Id)
    requires id in s.table.status && id in s.trails
    ensures StatusStep(s, DoCleanup(s, cutoff), id)
  {
    assert id in StaleIds(s.table, cutoff) ==> Stale(s.table, id, cutoff);
  }

  /** Every status change, in every interleaving, is an allowed move and is appended to the trail,
      although the check and the write of an update are separate statements. */
  lemma StatusChangesAreAllowed(c: Config, s: State, step: Step, id: Id)
    requires Safe(c, s) && id in s.table.status
    ensures StatusStep(s, Apply(c, s, step), id)
  {
    assert id in s.trails;
    match step
    case Preview(req, tx, x, createdAt) => PreviewIsAllowed(c, s, req, tx, x, createdAt, id);
    case Claim(h) => ClaimIsAllowed(s, h, id);
    case Write(h) => WriteIsAllowed(c, s, h, id);
    case Cleanup(cutoff) => CleanupIsAllowed(s, cutoff, id);
    case _ => assert s.table == Apply(c, s, step).table && s.trails == Apply(c, s, step).trails;
  }

  // ----- Two connections race for one row -----

  /** The connection whose step it is. */
  function Actor(step: Step): Option<nat> {
    match step
    case Begin(h, _, _) => Some(h)
    case Lookup(h, _) => Some(h)
    case Claim(h) => Some(h)
    case Announce(h, _) => Some(h)
    case Run(h, _, _, _) => Some(h)
    case Check(h) => Some(h)
    case Write(h) => Some(h)
    case Fail(h) => Some(h)
    case _ => None
  }

  ghost predicate TakesNoStep(h: nat, steps: seq<Step>) {
    forall i | 0 <= i < |steps| :: Actor(steps[i]) != Some(h)
  }

  /** Steps of others leave a connection where it is, or a restart loses it. */
  ghost predicate SameOrLost(s: State, s': State, h: nat) {
    h in s'.handlers ==> h in s.handlers && s'.handlers[h] == s.handlers[h]
  }

  lemma OthersLeaveHandler(c: Config, s: State, step: Step, h: nat)
    requires Actor(step) != Some(h)
    ensures SameOrLost(s, Apply(c, s, step), h)
  {
  }

  /** A row that has left the queue never comes back to it. */
  ghost predicate LeftQueue(s: State, id: Id) { id in s.table.status && s.table.status[id] != Queued }

  lemma NeverQueuedAgain(c: Config, s: State, step: Step, id: Id)
    requires Safe(c, s) && LeftQueue(s, id)
    ensures LeftQueue(Apply(c, s, step), id)
  {
    StatusChangesAreAllowed(c, s, step, id);
  }

  /** What the steps of others leave of the race: the row is out of the queue, the connection in its place. */
  ghost predicate Lost(c: Config, s: State, s': State, h: nat, id: Id) {
    Inv(c, s') && LeftQueue(s', id) && SameOrLost(s, s', h)
  }

  lemma OthersStep(c: Config, s: State, step: Step, h: nat, id: Id)
    requires Inv(c, s) && LeftQueue(s, id) && Actor(step) != Some(h)
    ensures Lost(c, s, Apply(c, s, step), h, id)
  {
    StepKeepsInv(c, s, step);
    NeverQueuedAgain(c, s, step, id);
    OthersLeaveHandler(c, s, step, h);
  }

  lemma {:induction false} OthersRun(c: Config, s: State, steps: seq<Step>, h: nat, id: Id)
    requires Inv(c, s) && LeftQueue(s, id) && TakesNoStep(h, steps)
    ensures Lost(c, s, After(c, s, steps), h, id)
    decreases |steps|
  {
    if steps != [] {
      var s1 := Apply(c, s, steps[0]);
      assert Actor(steps[0]) != Some(h);
      OthersStep(c, s, steps[0], h, id);
      OthersRun(c, s1, steps[1..], h, id);
      LostThen(c, s, s1, After(c, s1, steps[1..]), h, id);
    }
  }

  lemma LostThen(c: Config, s: State, s1: State, s2: State, h: nat, id: Id)
    requires Lost(c, s, s1, h, id) && Lost(c, s1, s2, h, id)
    ensures Lost(c, s, s2, h, id)
  {
  }

  ghost predicate Claims(s: State, h: nat, id: Id) {
    h in s.handlers && s.handlers[h].Claiming? && s.handlers[h].id == id
  }

  ghost predicate IsRunning(s: State, id: Id) { id in s.table.status && s.table.status[id] == Running }

  lemma ClaimHolds(s: State, g: nat, h: nat, id: Id)
    requires g != h && Claims(s, g, id) && Claims(s, h, id)
    requires id in s.table.status && s.table.status[id] == Queued
    ensures var won := DoClaim(s, g); Holds(won.handlers, g, id) && IsRunning(won, id) && Claims(won, h, id)
  {
  }

  lemma FirstClaimWins(c: Config, s: State, g: nat, h: nat, id: Id)
    requires Inv(c, s) && g != h && Claims(s, g, id) && Claims(s, h, id)
    requires id in s.table.status && s.table.status[id] == Queued
    ensures var won := Apply(c, s, Claim(g));
            && Inv(c, won) && Holds(won.handlers, g, id) && IsRunning(won, id)
            && Claims(won, h, id)
  {
    StepKeepsInv(c, s, Claim(g));
    ClaimHolds(s, g, h, id);
  }

  lemma LateClaimStops(c: Config, won: State, before: State, h: nat, id: Id)
    requires Claims(won, h, id) && Lost(c, won, before, h, id)
    ensures Apply(c, before, Claim(h)) == before.(handlers := before.handlers - {h})
  {
    if h !in before.handlers {
      assert before.handlers - {h} == before.handlers;
    }
  }

  /** Two connections found the same queued row. Whichever claims first holds it, and however long the other
      waits and whatever happens in between, its claim then only ends that connection. */
  lemma LoserChangesNothing(c: Config, s: State, g: nat, h: nat, id: Id, steps: seq<Step>)
    requires Inv(c, s) && g != h && Claims(s, g, id) && Claims(s, h, id)
    requires id in s.table.status && s.table.status[id] == Queued
    requires TakesNoStep(h, steps)
    ensures var won := Apply(c, s, Claim(g));
            var before := After(c, won, steps);
            && Holds(won.handlers, g, id) && IsRunning(won, id)
            && Apply(c, before, Claim(h)) == before.(handlers := before.handlers - {h})
  {
    var won := Apply(c, s, Claim(g));
    FirstClaimWins(c, s, g, h, id);
    OthersRun(c, won, steps, h, id);
    LateClaimStops(c, won, After(c, won, steps), h, id);
  }

  /** A running row that no handler holds. */
  ghost predicate Orphaned(s: State, id: Id) {
    && id in s.table.status && s.table.status[id] == Running
    && forall h :: !Holds(s.handlers, h, id)
  }

  ghost predicate StaysOrphaned(s: State, s': State, id: Id) {
    Orphaned(s', id) && Starts(s'.log, id) == Starts(s.log, id) && Runs(s'.log, id) == Runs(s.log, id)
  }

  lemma ClaimLeavesOrphan(s: State, h: nat, id: Id)
    requires Orphaned(s, id)
    ensures StaysOrphaned(s, DoClaim(s, h), id)
  {
    var s' := DoClaim(s, h);
    forall g ensures !Holds(s'.handlers, g, id) {
      assert !Holds(s.handlers, g, id);
    }
  }

  /** A step of a handler that does not hold the row, logging at most an event of another row. */
  lemma HandlerLeavesOrphan(s: State, h: nat, hd: Handler, log': seq<Event>, id: Id)
    requires Orphaned(s, id) && (Holding(hd) ==> hd.id != id)
    requires log' == s.log || exists e :: log' == s.log + [e] && (e.Previewed? || e.id != id)
    ensures StaysOrphaned(s, s.(handlers := s.handlers[h := hd], log := log'), id)
  {
    var handlers' := s.handlers[h := hd];
    forall g ensures !Holds(handlers', g, id) {
      assert !Holds(s.handlers, g, id);
    }
    if log' != s.log {
      var e :| log' == s.log + [e] && (e.Previewed? || e.id != id);
      CountsGrow(s.log, e, id);
    }
  }

  lemma StopLeavesOrphan(s: State, h: nat, id: Id)
    requires Orphaned(s, id)
    ensures StaysOrphaned(s, Stop(s, h), id)
  {
    var handlers' := s.handlers - {h};
    forall g ensures !Holds(handlers', g, id) {
      assert !Holds(s.handlers, g, id);
    }
  }

  lemma WriteLeavesOrphan(s: State, h: nat, id: Id)
    requires Orphaned(s, id)
    ensures StaysOrphaned(s, DoWrite(s, h), id)
  {
    StopLeavesOrphan(s, h, id);
    assert !Holds(s.handlers, h, id);
  }

  lemma StepKeepsOrphan(c: Config, s: State, step: Step, id: Id)
    requires Orphaned(s, id)
    ensures StaysOrphaned(s, Apply(c, s, step), id)
  {
    match step
    case Preview(req, tx, x, createdAt) => CountsGrow(s.log, Previewed(x, req), id);
    case Begin(h, req, approvalHash) => HandlerLeavesOrphan(s, h, Looking(req), s.log, id);
    case Lookup(h, cutoff) =>
      StopLeavesOrphan(s, h, id);
      if h in s.handlers && s.handlers[h].Looking? {
        var found := Find(s.table, Hash(c, s.handlers[h].req), cutoff);
        if found.Some? {
          HandlerLeavesOrphan(s, h, Claiming(s.handlers[h].req, found.value), s.log, id);
        }
      }
    case Claim(h) => ClaimLeavesOrphan(s, h, id);
    case Announce(h, sent) =>
      StopLeavesOrphan(s, h, id);
      if h in s.handlers && s.handlers[h].Announcing? {
        var hd := s.handlers[h];
        assert !Holds(s.handlers, h, id);
        HandlerLeavesOrphan(s, h, Executing(hd.req, hd.id), s.log + [Started(hd.id, hd.req)], id);
      }
    case Run(h, spec, ok, rollbackOk) =>
      if h in s.handlers && s.handlers[h].Executing? {
        var hd := s.handlers[h];
        assert !Holds(s.handlers, h, id);
        var final := AttemptRollback(spec, InitialStatus(spec, ok), rollbackOk);
        HandlerLeavesOrphan(s, h, Checking(hd.req, hd.id, final), s.log + [Executed(hd.id, hd.req)], id);
      }
    case Check(h) =>
      StopLeavesOrphan(s, h, id);
      if h in s.handlers && s.handlers[h].Checking? {
        var hd := s.handlers[h];
        assert !Holds(s.handlers, h, id);
        HandlerLeavesOrphan(s, h, Writing(hd.req, hd.id, hd.final), s.log, id);
      }
    case Write(h) => WriteLeavesOrphan(s, h, id);
    case Fail(h) => StopLeavesOrphan(s, h, id);
    case Cleanup(cutoff) =>
    case Restart =>
  }

  /** An orphaned row stays running for good: it is never claimed, started or run again. */
  lemma {:induction false} OrphanForever(c: Config, s: State, steps: seq<Step>, id: Id)
    requires Orphaned(s, id)
    ensures StaysOrphaned(s, After(c, s, steps), id)
    decreases |steps|
  {
    if steps != [] {
      StepKeepsOrphan(c, s, steps[0], id);
      OrphanForever(c, Apply(c, s, steps[0]), steps[1..], id);
    }
  }

  /** When the holder of a row stops early, because the status update failed or its connection broke
      down, the row stays running and can never be executed again. */
  lemma FailedUpdateIsFinal(c: Config, s: State, h: nat, steps: seq<Step>)
    requires Inv(c, s) && h in s.handlers && Holding(s.handlers[h])
    ensures var id := s.handlers[h].id;
            StaysOrphaned(s, After(c, Apply(c, s, Fail(h)), steps), id)
  {
    var id := s.handlers[h].id;
    assert HandlerOk(c, s.table.status, s.handlers, s.log, h);
    var s1 := Apply(c, s, Fail(h));
    assert Orphaned(s1, id) by {
      assert forall g | Holds(s1.handlers, g, id) :: Holds(s.handlers, g, id);
    }
    OrphanForever(c, s1, steps, id);
  }

  /** How many steps the holder of a row is from writing its status. */
  function StepsLeft(hd: Handler): nat {
    match hd
    case Announcing(_, _) => 4
    case Executing(_, _) => 3
    case Checking(_, _, _) => 2
    case Writing(_, _, _) => 1
    case _ => 0
  }

  function NextStep(h: nat, hd: Handler): Step
    requires Holding(hd)
  {
    match hd
    case Announcing(_, _) => Announce(h, true)
    case Executing(_, _) => Run(h, ActionSpec(false, false, false), true, true)
    case Checking(_, _, _) => Check(h)
    case Writing(_, _, _) => Write(h)
  }

  /** A holder's step brings it nearer to the write, or is the write. */
  ghost predicate Nearer(s: State, s': State, h: nat, id: Id)
    requires h in s.handlers
  {
    if s.handlers[h].Writing? then id in s'.table.status && Terminal(s'.table.status[id])
    else Holds(s'.handlers, h, id) && StepsLeft(s'.handlers[h]) < StepsLeft(s.handlers[h])
  }

  lemma AnnounceAdvances(s: State, h: nat, id: Id)
    requires Holds(s.handlers, h, id) && s.handlers[h].Announcing?
    ensures Nearer(s, DoAnnounce(s, h, true), h, id)
  {
  }

  lemma RunAdvances(s: State, h: nat, id: Id, final: JobState)
    requires Holds(s.handlers, h, id) && s.handlers[h].Executing?
    ensures Nearer(s, DoRun(s, h, final), h, id)
  {
  }

  lemma CheckAdvances(s: State, h: nat, id: Id)
    requires Holds(s.handlers, h, id) && s.handlers[h].Checking?
    requires IsRunning(s, id) && AllowedTransition(Running, s.handlers[h].final)
    ensures Nearer(s, DoCheck(s, h), h, id)
  {
  }

  lemma WriteAdvances(s: State, h: nat, id: Id)
    requires Holds(s.handlers, h, id) && s.handlers[h].Writing?
    requires IsRunning(s, id) && AllowedTransition(Running, s.handlers[h].final)
    ensures Nearer(s, DoWrite(s, h), h, id)
  {
  }

  lemma HolderIsOk(c: Config, s: State, h: nat, id: Id)
    requires Inv(c, s) && Holds(s.handlers, h, id)
    ensures IsRunning(s, id)
    ensures s.handlers[h].Checking? || s.handlers[h].Writing? ==> AllowedTransition(Running, s.handlers[h].final)
  {
    assert HandlerOk(c, s.table.status, s.handlers, s.log, h);
  }

  lemma HolderAdvances(c: Config, s: State, h: nat, id: Id)
    requires Holds(s.handlers, h, id) && IsRunning(s, id)
    requires s.handlers[h].Checking? || s.handlers[h].Writing? ==> AllowedTransition(Running, s.handlers[h].final)
    ensures Nearer(s, Apply(c, s, NextStep(h, s.handlers[h])), h, id)
  {
    match s.handlers[h]
    case Announcing(_, _) => AnnounceAdvances(s, h, id);
    case Executing(_, _) =>
      var spec := ActionSpec(false, false, false);
      RunAdvances(s, h, id, AttemptRollback(spec, InitialStatus(spec, true), true));
    case Checking(_, _, _) => CheckAdvances(s, h, id);
    case Writing(_, _, _) => WriteAdvances(s, h, id);
  }

  /** The holder of a row can bring it to a terminal status. */
  lemma {:induction false} HeldRowCanFinish(c: Config, s: State, h: nat, id: Id) returns (steps: seq<Step>)
    requires Inv(c, s) && Holds(s.handlers, h, id)
    ensures var t := After(c, s, steps).table; id in t.status && Terminal(t.status[id])
    decreases StepsLeft(s.handlers[h])
  {
    var step := NextStep(h, s.handlers[h]);
    var s' := Apply(c, s, step);
    HolderIsOk(c, s, h, id);
    HolderAdvances(c, s, h, id);
    var rest := [];
    if !s.handlers[h].Writing? {
      StepKeepsInv(c, s, step);
      rest := HeldRowCanFinish(c, s', h, id);
    }
    steps := [step] + rest;
    assert steps[1..] == rest;
  }

  /** A running row stays running under every continuation exactly when no connection holds it. */
  lemma RunningForGoodExactly(c: Config, s: State, id: Id)
    requires Inv(c, s) && IsRunning(s, id)
    ensures (forall steps :: IsRunning(After(c, s, steps), id)) <==> Orphaned(s, id)
  {
    if h :| Holds(s.handlers, h, id) {
      var steps := HeldRowCanFinish(c, s, h, id);
      assert !IsRunning(After(c, s, steps), id);
    } else {
      forall steps ensures IsRunning(After(c, s, steps), id) {
        OrphanForever(c, s, steps, id);
      }
    }
  }

  /** The run in which the only connection loses its row because `JobStarted` cannot be sent. */
  function LostStart(c: Config, req: Request, tx: NewTransaction, id: Id, createdAt: seq<byte>,
                     cutoff: seq<byte>): seq<Step> {
    [Preview(req, tx, id, createdAt), Begin(0, req, Hash(c, req)), Lookup(0, cutoff), Claim(0), Announce(0, false)]
  }

  lemma AfterCons(c: Config, s: State, step: Step, rest: seq<Step>)
    ensures After(c, s, [step] + rest) == After(c, Apply(c, s, step), rest)
  {
    assert ([step] + rest)[1..] == rest;
  }

  lemma FindsOnlyRow(c: Config, req: Request, tx: NewTransaction, id: Id, createdAt: seq<byte>, cutoff: seq<byte>)
    requires KeyOrder.Less(cutoff, createdAt)
    ensures Find(DoPreview(c, Init(), req, tx, id, createdAt).table, Hash(c, req), cutoff) == Some(id)
  {
    var t := DoPreview(c, Init(), req, tx, id, createdAt).table;
    assert Matches(t, t.chain[0], Hash(c, req), cutoff);
  }

  /** Such rows exist: every request can be previewed, found while it is fresh, and left running for good. */
  lemma LostStartOrphans(c: Config, req: Request, tx: NewTransaction, id: Id, createdAt: seq<byte>, cutoff: seq<byte>)
    requires KeyOrder.Less(cutoff, createdAt)
    ensures Orphaned(After(c, Init(), LostStart(c, req, tx, id, createdAt, cutoff)), id)
  {
    FindsOnlyRow(c, req, tx, id, createdAt, cutoff);
    var s1 := DoPreview(c, Init(), req, tx, id, createdAt);
    AfterCons(c, Init(), Preview(req, tx, id, createdAt),
              [Begin(0, req, Hash(c, req)), Lookup(0, cutoff), Claim(0), Announce(0, false)]);
    AfterCons(c, s1, Begin(0, req, Hash(c, req)), [Lookup(0, cutoff), Claim(0), Announce(0, false)]);
    var s2 := Apply(c, s1, Begin(0, req, Hash(c, req)));
    AfterCons(c, s2, Lookup(0, cutoff), [Claim(0), Announce(0, false)]);
    var s3 := Apply(c, s2, Lookup(0, cutoff));
    AfterCons(c, s3, Claim(0), [Announce(0, false)]);
    var s4 := Apply(c, s3, Claim(0));
    AfterCons(c, s4, Announce(0, false), []);
  }

  // ----- Starts never outnumber previews -----

  function CountIf(log: seq<Event>, p: Event -> bool): nat {
    if log == [] then 0 else CountIf(log[..|log| - 1], p) + if p(log[|log| - 1]) then 1 else 0
  }

  ghost function IdsIf(log: seq<Event>, p: Event -> bool): set<Id> {
    if log == [] then {} else IdsIf(log[..|log| - 1], p) + if p(log[|log| - 1]) then {log[|log| - 1].id} else {}
  }

  function IsStartOf(c: Config, hash: seq<byte>): Event -> bool {
    (e: Event) => e.Started? && Hash(c, e.req) == hash
  }

  function IsPreviewOf(c: Config, hash: seq<byte>): Event -> bool {
    (e: Event) => e.Previewed? && Hash(c, e.req) == hash
  }

  lemma {:induction false} FewerIdsThanEvents(log: seq<Event>, p: Event -> bool)
    ensures |IdsIf(log, p)| <= CountIf(log, p)
  {
    if log != [] {
      FewerIdsThanEvents(log[..|log| - 1], p);
    }
  }

  lemma {:induction false} StartedIdsCount(c: Config, log: seq<Event>, hash: seq<byte>, id: Id)
    requires id in IdsIf(log, IsStartOf(c, hash))
    ensures Starts(log, id) > 0
  {
    var rest := log[..|log| - 1];
    if id in IdsIf(rest, IsStartOf(c, hash)) {
      StartedIdsCount(c, rest, hash, id);
    }
  }

  lemma {:induction false} EachStartHasItsId(c: Config, log: seq<Event>, hash: seq<byte>)
    requires forall id :: Starts(log, id) <= 1
    ensures CountIf(log, IsStartOf(c, hash)) == |IdsIf(log, IsStartOf(c, hash))|
  {
    if log != [] {
      var rest, e := log[..|log| - 1], log[|log| - 1];
      forall id ensures Starts(rest, id) <= 1 {
        assert Starts(log, id) <= 1;
      }
      EachStartHasItsId(c, rest, hash);
      assert Starts(log, e.id) <= 1;
      if e.id in IdsIf(rest, IsStartOf(c, hash)) {
        StartedIdsCount(c, rest, hash, e.id);
      }
    }
  }

  lemma {:induction false} PreviewedIsListed(c: Config, log: seq<Event>, hash: seq<byte>, id: Id)
    requires PreviewedAs(c, log, id, hash)
    ensures id in IdsIf(log, IsPreviewOf(c, hash))
  {
    var i :| 0 <= i < |log| && log[i].Previewed? && log[i].id == id && Hash(c, log[i].req) == hash;
    var rest := log[..|log| - 1];
    if i < |log| - 1 {
      assert rest[i] == log[i];
      PreviewedIsListed(c, rest, hash, id);
    }
  }

  lemma {:induction false} StartedIsPreviewed(c: Config, log: seq<Event>, hash: seq<byte>, id: Id)
    requires forall i | 0 <= i < |log| :: Backed(c, log, i)
    requires id in IdsIf(log, IsStartOf(c, hash))
    ensures PreviewedAs(c, log, id, hash)
  {
    var rest, e := log[..|log| - 1], log[|log| - 1];
    assert log == rest + [e];
    if id in IdsIf(rest, IsStartOf(c, hash)) {
      forall i | 0 <= i < |rest| ensures Backed(c, rest, i) {
        assert Backed(c, log, i) && rest[..i] == log[..i];
      }
      StartedIsPreviewed(c, rest, hash, id);
    } else {
      assert Backed(c, log, |rest|) && log[..|rest|] == rest;
    }
    PreviewedGrows(c, rest, e, id, hash);
  }

  lemma SubsetCard(a: set<Id>, b: set<Id>)
    requires a <= b
    ensures |a| <= |b|
  {
    assert |b| == |a| + |b - a| by {
      assert b == a + (b - a);
    }
  }

  /** In every run, for every request hash, no more jobs were started than previews were recorded. */
  lemma StartsNeverOutnumberPreviews(c: Config, steps: seq<Step>, hash: seq<byte>)
    requires c.key.keyId == Ascii(CURRENT_KEY_ID)
    ensures var log := After(c, Init(), steps).log;
            CountIf(log, IsStartOf(c, hash)) <= CountIf(log, IsPreviewOf(c, hash))
  {
    EveryRunIsSafe(c, steps);
    InitInv(c);
    RunKeepsInv(c, Init(), steps);
    var log := After(c, Init(), steps).log;
    var started, previewed := IdsIf(log, IsStartOf(c, hash)), IdsIf(log, IsPreviewOf(c, hash));
    forall id ensures Starts(log, id) <= 1 {
      assert CountsOk(After(c, Init(), steps).table.status, log, id);
    }
    EachStartHasItsId(c, log, hash);
    FewerIdsThanEvents(log, IsPreviewOf(c, hash));
    forall id | id in started ensures id in previewed {
      StartedIsPreviewed(c, log, hash, id);
      PreviewedIsListed(c, log, hash, id);
    }
    SubsetCard(started, previewed);
  }

  // ----- An approval means one request -----

  ghost predicate SameRequest(x: Request, y: Request) {
    x.action == y.action && CanonicalJson.Same(x.params, y.params)
  }

  /** The pre-images of the two requests are different messages with the same digest. */
  ghost predicate DigestCollision(c: Config, x: Request, y: Request) {
    var m, n := RequestHash.PreImage(x.action, x.params), RequestHash.PreImage(y.action, y.params);
    m != n && c.digest(m) == c.digest(n)
  }

  /** Whatever is executed was previewed before, in the same row: the same action with the same
      parameters up to key order, or two colliding pre-images are exhibited. */
  lemma ExecutedWasPreviewed(c: Config, steps: seq<Step>, i: nat)
    requires c.key.keyId == Ascii(CURRENT_KEY_ID)
    requires i < |After(c, Init(), steps).log| && After(c, Init(), steps).log[i].Executed?
    ensures var log := After(c, Init(), steps).log;
            exists j :: 0 <= j < i && log[j].Previewed? && log[j].id == log[i].id
              && (SameRequest(log[j].req, log[i].req) || DigestCollision(c, log[j].req, log[i].req))
  {
    InitInv(c);
    RunKeepsInv(c, Init(), steps);
    var log := After(c, Init(), steps).log;
    assert Backed(c, log, i);
    var j :| 0 <= j < |log[..i]| && log[..i][j].Previewed? && log[..i][j].id == log[i].id
      && Hash(c, log[..i][j].req) == Hash(c, log[i].req);
    assert log[..i][j] == log[j];
    var x, y := log[j].req, log[i].req;
    RequestHash.EqualHashes(c.digest, x.action, x.params, y.action, y.params);
  }
}
