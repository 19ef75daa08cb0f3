/** How a request comes to be executed: the steps that every start has behind it, and that they suffice. */
module ApprovalPath {
  import opened Wrappers
  import opened Bytes
  import opened AuditContent
  import opened AuditChain
  import opened Jobs
  import opened TransactionStore
  import opened ApprovalProtocol
  import KeyOrder
  import RequestHash

  /** The hash that an approval of the request has to be. */
  function ApprovalFor(c: Config, req: Request): seq<byte> {
    c.digest(RequestHash.PreImage(req.action, req.params))
  }

  /** Row `i` is queued, was previewed under the hash of the request, and was created after the cutoff. */
  ghost predicate Approves(c: Config, t: Table, req: Request, cutoff: seq<byte>, i: nat)
    requires i < |t.chain|
  {
    var row := t.chain[i].content;
    && row.requestHash == ApprovalFor(c, req)
    && KeyOrder.Less(cutoff, row.createdAt)
    && row.transactionId in t.status && t.status[row.transactionId] == Queued
  }

  /** Row `i` is the newest one that approves the request. */
  ghost predicate NewestAt(c: Config, t: Table, req: Request, cutoff: seq<byte>, i: nat) {
    && i < |t.chain| && Approves(c, t, req, cutoff, i)
    && forall j | i < j < |t.chain| :: !Approves(c, t, req, cutoff, j)
  }

  ghost predicate NewestApproval(c: Config, t: Table, req: Request, cutoff: seq<byte>, id: Id) {
    exists i: nat :: NewestAt(c, t, req, cutoff, i) && t.chain[i].content.transactionId == id
  }

  /** The connection asked for the request and sent its hash as the approval. */
  ghost predicate Asked(c: Config, steps: seq<Step>, h: nat, req: Request) {
    exists k: nat :: k < |steps| && steps[k] == Begin(h, req, ApprovalFor(c, req))
  }

  /** Then it looked for a preview, and the row was the newest that approved the request at that time. */
  ghost predicate FoundAt(c: Config, steps: seq<Step>, h: nat, req: Request, id: Id, k: nat) {
    && k < |steps| && steps[k].Lookup? && steps[k].h == h && Asked(c, steps[..k], h, req)
    && NewestApproval(c, After(c, Init(), steps[..k]).table, req, steps[k].cutoff, id)
  }

  ghost predicate Found(c: Config, steps: seq<Step>, h: nat, req: Request, id: Id) {
    exists k: nat :: FoundAt(c, steps, h, req, id, k)
  }

  /** Then it claimed the row while that was still queued. */
  ghost predicate WonAt(c: Config, steps: seq<Step>, h: nat, req: Request, id: Id, k: nat) {
    && k < |steps| && steps[k] == Claim(h) && Found(c, steps[..k], h, req, id)
    && var status := After(c, Init(), steps[..k]).table.status; id in status && status[id] == Queued
  }

  ghost predicate Won(c: Config, steps: seq<Step>, h: nat, req: Request, id: Id) {
    exists k: nat :: WonAt(c, steps, h, req, id, k)
  }

  /** Then it sent `JobStarted`. */
  ghost predicate Announced(c: Config, steps: seq<Step>, h: nat, req: Request, id: Id) {
    exists k: nat :: k < |steps| && steps[k] == Announce(h, true) && Won(c, steps[..k], h, req, id)
  }

  /** Then it ran the action. */
  ghost predicate Ran(c: Config, steps: seq<Step>, h: nat, req: Request, id: Id) {
    exists k: nat :: k < |steps| && steps[k].Run? && steps[k].h == h && Announced(c, steps[..k], h, req, id)
  }

  // ----- What lies behind a handler and behind an event -----

  ghost predicate HandlerBacked(c: Config, steps: seq<Step>, h: nat, hd: Handler) {
    match hd
    case Looking(req) => Asked(c, steps, h, req)
    case Claiming(req, id) => Found(c, steps, h, req, id)
    case Announcing(req, id) => Won(c, steps, h, req, id)
    case Executing(req, id) => Announced(c, steps, h, req, id)
    case Checking(req, id, _) => Ran(c, steps, h, req, id)
    case Writing(req, id, _) => Ran(c, steps, h, req, id)
  }

  ghost predicate EventBacked(c: Config, steps: seq<Step>, e: Event) {
    match e
    case Previewed(id, req) =>
      exists k: nat :: k < |steps| && steps[k].Preview? && steps[k].id == id && steps[k].req == req
    case Started(id, req) => exists h: nat :: Announced(c, steps, h, req, id)
    case Executed(id, req) => exists h: nat :: Ran(c, steps, h, req, id)
  }

  ghost predicate Backed(c: Config, steps: seq<Step>, s: State) {
    && (forall h | h in s.handlers :: HandlerBacked(c, steps, h, s.handlers[h]))
    && (forall i | 0 <= i < |s.log| :: EventBacked(c, steps, s.log[i]))
  }

  // ----- A longer run has everything behind it that a shorter one has -----

  lemma Prefixes(steps: seq<Step>, step: Step)
    ensures forall k | 0 <= k <= |steps| :: (steps + [step])[..k] == steps[..k]
  {
  }

  lemma AskedGrows(c: Config, steps: seq<Step>, step: Step, h: nat, req: Request)
    requires Asked(c, steps, h, req)
    ensures Asked(c, steps + [step], h, req)
  {
    var k: nat :| k < |steps| && steps[k] == Begin(h, req, ApprovalFor(c, req));
    assert (steps + [step])[k] == steps[k];
  }

  lemma FoundGrows(c: Config, steps: seq<Step>, step: Step, h: nat, req: Request, id: Id)
    requires Found(c, steps, h, req, id)
    ensures Found(c, steps + [step], h, req, id)
  {
    Prefixes(steps, step);
    var k: nat :| FoundAt(c, steps, h, req, id, k);
    assert FoundAt(c, steps + [step], h, req, id, k);
  }

  lemma WonGrows(c: Config, steps: seq<Step>, step: Step, h: nat, req: Request, id: Id)
    requires Won(c, steps, h, req, id)
    ensures Won(c, steps + [step], h, req, id)
  {
    Prefixes(steps, step);
    var k: nat :| WonAt(c, steps, h, req, id, k);
    assert WonAt(c, steps + [step], h, req, id, k);
  }

  lemma AnnouncedGrows(c: Config, steps: seq<Step>, step: Step, h: nat, req: Request, id: Id)
    requires Announced(c, steps, h, req, id)
    ensures Announced(c, steps + [step], h, req, id)
  {
    Prefixes(steps, step);
    var k: nat :| k < |steps| && steps[k] == Announce(h, true) && Won(c, steps[..k], h, req, id);
    assert (steps + [step])[k] == steps[k] && (steps + [step])[..k] == steps[..k];
  }

  lemma RanGrows(c: Config, steps: seq<Step>, step: Step, h: nat, req: Request, id: Id)
    requires Ran(c, steps, h, req, id)
    ensures Ran(c, steps + [step], h, req, id)
  {
    Prefixes(steps, step);
    var k: nat :| k < |steps| && steps[k].Run? && steps[k].h == h && Announced(c, steps[..k], h, req, id);
    assert (steps + [step])[k] == steps[k] && (steps + [step])[..k] == steps[..k];
  }

  lemma HandlerGrows(c: Config, steps: seq<Step>, step: Step, h: nat, hd: Handler)
    requires HandlerBacked(c, steps, h, hd)
    ensures HandlerBacked(c, steps + [step], h, hd)
  {
    match hd
    case Looking(req) => AskedGrows(c, steps, step, h, req);
    case Claiming(req, id) => FoundGrows(c, steps, step, h, req, id);
    case Announcing(req, id) => WonGrows(c, steps, step, h, req, id);
    case Executing(req, id) => AnnouncedGrows(c, steps, step, h, req, id);
    case Checking(req, id, _) => RanGrows(c, steps, step, h, req, id);
    case Writing(req, id, _) => RanGrows(c, steps, step, h, req, id);
  }

  lemma EventGrows(c: Config, steps: seq<Step>, step: Step, e: Event)
    requires EventBacked(c, steps, e)
    ensures EventBacked(c, steps + [step], e)
  {
    match e
    case Previewed(id, req) =>
      var k: nat :| k < |steps| && steps[k].Preview? && steps[k].id == id && steps[k].req == req;
      assert (steps + [step])[k] == steps[k];
    case Started(id, req) =>
      var h: nat :| Announced(c, steps, h, req, id);
      AnnouncedGrows(c, steps, step, h, req, id);
    case Executed(id, req) =>
      var h: nat :| Ran(c, steps, h, req, id);
      RanGrows(c, steps, step, h, req, id);
  }

  // ----- Each step leaves nothing without backing -----

  /** The step changes at most the handler of `h`, and what it puts there is backed. */
  ghost predicate HandlersStep(c: Config, steps: seq<Step>,
                               before: map<nat, Handler>, after: map<nat, Handler>, h: nat) {
    forall g | g in after ::
      (g in before && after[g] == before[g]) || (g == h && HandlerBacked(c, steps, h, after[h]))
  }

  lemma LastStep(steps: seq<Step>, step: Step)
    ensures (steps + [step])[|steps|] == step && (steps + [step])[..|steps|] == steps
  {
  }

  lemma FoundIsNewest(c: Config, t: Table, req: Request, cutoff: seq<byte>) returns (i: nat)
    requires Find(t, Hash(c, req), cutoff).Some?
    ensures NewestAt(c, t, req, cutoff, i)
    ensures t.chain[i].content.transactionId == Find(t, Hash(c, req), cutoff).value
  {
    i :| NewestMatch(t, Hash(c, req), cutoff, i) && RowId(t.chain[i]) == Find(t, Hash(c, req), cutoff).value;
    forall j | i < j < |t.chain| ensures !Approves(c, t, req, cutoff, j) {
      assert !Matches(t, t.chain[j], Hash(c, req), cutoff);
    }
  }

  lemma FindsNoApproval(c: Config, t: Table, req: Request, cutoff: seq<byte>)
    requires forall i: nat | i < |t.chain| :: !Approves(c, t, req, cutoff, i)
    ensures Find(t, Hash(c, req), cutoff) == None
  {
    if Find(t, Hash(c, req), cutoff).Some? {
      var i := FoundIsNewest(c, t, req, cutoff);
      assert false;
    }
  }

  lemma LookupFinds(c: Config, s: State, h: nat, cutoff: seq<byte>)
    requires h in s.handlers && s.handlers[h].Looking?
    ensures var s' := DoLookup(c, s, h, cutoff);
            h in s'.handlers ==>
              && s'.handlers[h].Claiming? && s'.handlers[h].req == s.handlers[h].req
              && NewestApproval(c, s.table, s.handlers[h].req, cutoff, s'.handlers[h].id)
  {
    var req := s.handlers[h].req;
    if Find(s.table, Hash(c, req), cutoff).Some? {
      var i := FoundIsNewest(c, s.table, req, cutoff);
    }
  }

  lemma HandlerPut(c: Config, steps: seq<Step>, handlers: map<nat, Handler>, h: nat, hd: Handler)
    requires HandlerBacked(c, steps, h, hd)
    ensures HandlersStep(c, steps, handlers, handlers[h := hd], h)
  {
  }

  lemma HandlerGone(c: Config, steps: seq<Step>, handlers: map<nat, Handler>, h: nat)
    ensures HandlersStep(c, steps, handlers, handlers - {h}, h)
    ensures HandlersStep(c, steps, handlers, handlers, h)
  {
  }

  /** The step logs nothing, or one event that is backed. */
  ghost predicate LogStep(c: Config, steps: seq<Step>, before: seq<Event>, after: seq<Event>) {
    || after == before
    || (|after| == |before| + 1 && after[..|before|] == before && EventBacked(c, steps, after[|before|]))
  }

  lemma Logged(c: Config, steps: seq<Step>, log: seq<Event>, e: Event)
    requires EventBacked(c, steps, e)
    ensures LogStep(c, steps, log, log + [e])
  {
  }

  lemma AnnouncedLast(c: Config, steps: seq<Step>, h: nat, req: Request, id: Id)
    requires Won(c, steps, h, req, id)
    ensures Announced(c, steps + [Announce(h, true)], h, req, id)
  {
    LastStep(steps, Announce(h, true));
  }

  lemma RanLast(c: Config, steps: seq<Step>, step: Step, h: nat, req: Request, id: Id)
    requires Announced(c, steps, h, req, id) && step.Run? && step.h == h
    ensures Ran(c, steps + [step], h, req, id)
  {
    LastStep(steps, step);
  }

  /** What the step does to the handlers and to the log is backed. */
  ghost predicate StepOk(c: Config, steps: seq<Step>, s: State, s': State, h: nat) {
    HandlersStep(c, steps, s.handlers, s'.handlers, h) && LogStep(c, steps, s.log, s'.log)
  }

  lemma LookupBacked(c: Config, steps: seq<Step>, s: State, h: nat, cutoff: seq<byte>)
    requires s == After(c, Init(), steps) && (h in s.handlers ==> HandlerBacked(c, steps, h, s.handlers[h]))
    ensures StepOk(c, steps + [Lookup(h, cutoff)], s, DoLookup(c, s, h, cutoff), h)
  {
    var s' := DoLookup(c, s, h, cutoff);
    HandlerGone(c, steps + [Lookup(h, cutoff)], s.handlers, h);
    if h in s.handlers && s.handlers[h].Looking? {
      LastStep(steps, Lookup(h, cutoff));
      LookupFinds(c, s, h, cutoff);
      if h in s'.handlers {
        var hd := s'.handlers[h];
        assert FoundAt(c, steps + [Lookup(h, cutoff)], h, hd.req, hd.id, |steps|);
        HandlerPut(c, steps + [Lookup(h, cutoff)], s.handlers, h, hd);
      }
    }
  }

  lemma ClaimBacked(c: Config, steps: seq<Step>, s: State, h: nat)
    requires s == After(c, Init(), steps) && (h in s.handlers ==> HandlerBacked(c, steps, h, s.handlers[h]))
    ensures StepOk(c, steps + [Claim(h)], s, DoClaim(s, h), h)
  {
    var s' := DoClaim(s, h);
    HandlerGone(c, steps + [Claim(h)], s.handlers, h);
    if h in s.handlers && s.handlers[h].Claiming? && h in s'.handlers {
      var hd := s.handlers[h];
      LastStep(steps, Claim(h));
      assert WonAt(c, steps + [Claim(h)], h, hd.req, hd.id, |steps|);
      HandlerPut(c, steps + [Claim(h)], s.handlers, h, Announcing(hd.req, hd.id));
    }
  }

  lemma AnnounceBacked(c: Config, steps: seq<Step>, s: State, h: nat, sent: bool)
    requires h in s.handlers ==> HandlerBacked(c, steps, h, s.handlers[h])
    ensures StepOk(c, steps + [Announce(h, sent)], s, DoAnnounce(s, h, sent), h)
  {
    var steps' := steps + [Announce(h, sent)];
    HandlerGone(c, steps', s.handlers, h);
    if h in s.handlers && s.handlers[h].Announcing? && sent {
      var hd := s.handlers[h];
      AnnouncedLast(c, steps, h, hd.req, hd.id);
      HandlerPut(c, steps', s.handlers, h, Executing(hd.req, hd.id));
      Logged(c, steps', s.log, Started(hd.id, hd.req));
    }
  }

  lemma RunBacked(c: Config, steps: seq<Step>, step: Step, s: State, h: nat, final: JobState)
    requires h in s.handlers ==> HandlerBacked(c, steps, h, s.handlers[h])
    requires step.Run? && step.h == h
    ensures StepOk(c, steps + [step], s, DoRun(s, h, final), h)
  {
    HandlerGone(c, steps + [step], s.handlers, h);
    if h in s.handlers && s.handlers[h].Executing? {
      var hd := s.handlers[h];
      RanLast(c, steps, step, h, hd.req, hd.id);
      HandlerPut(c, steps + [step], s.handlers, h, Checking(hd.req, hd.id, final));
      Logged(c, steps + [step], s.log, Executed(hd.id, hd.req));
    }
  }

  lemma CheckBacked(c: Config, steps: seq<Step>, s: State, h: nat)
    requires h in s.handlers ==> HandlerBacked(c, steps, h, s.handlers[h])
    ensures StepOk(c, steps + [Check(h)], s, DoCheck(s, h), h)
  {
    HandlerGone(c, steps + [Check(h)], s.handlers, h);
    if h in s.handlers && s.handlers[h].Checking? {
      var hd := s.handlers[h];
      RanGrows(c, steps, Check(h), h, hd.req, hd.id);
      HandlerPut(c, steps + [Check(h)], s.handlers, h, Writing(hd.req, hd.id, hd.final));
    }
  }

  lemma BeginBacked(c: Config, steps: seq<Step>, s: State, h: nat, req: Request, approvalHash: seq<byte>)
    ensures var step := Begin(h, req, approvalHash);
            StepOk(c, steps + [step], s, DoBegin(c, s, h, req, approvalHash), h)
  {
    var step := Begin(h, req, approvalHash);
    HandlerGone(c, steps + [step], s.handlers, h);
    if approvalHash == ApprovalFor(c, req) {
      LastStep(steps, step);
      assert Asked(c, steps + [step], h, req);
      HandlerPut(c, steps + [step], s.handlers, h, Looking(req));
    }
  }

  lemma PreviewBacked(c: Config, steps: seq<Step>, s: State, step: Step)
    requires step.Preview?
    ensures StepOk(c, steps + [step], s, Apply(c, s, step), 0)
  {
    LastStep(steps, step);
    HandlerGone(c, steps + [step], s.handlers, 0);
    assert EventBacked(c, steps + [step], Previewed(step.id, step.req));
    Logged(c, steps + [step], s.log, Previewed(step.id, step.req));
  }

  lemma StopBacked(c: Config, steps: seq<Step>, s: State, step: Step, h: nat)
    requires step == Write(h) || step == Fail(h) || step.Cleanup? || step.Restart?
    ensures StepOk(c, steps, s, Apply(c, s, step), h)
  {
    HandlerGone(c, steps, s.handlers, h);
  }

  lemma StepFollows(c: Config, steps: seq<Step>, step: Step, s: State, s': State, h: nat)
    requires Backed(c, steps, s) && StepOk(c, steps + [step], s, s', h)
    ensures Backed(c, steps + [step], s')
  {
    forall g | g in s'.handlers ensures HandlerBacked(c, steps + [step], g, s'.handlers[g]) {
      if g in s.handlers && s'.handlers[g] == s.handlers[g] {
        HandlerGrows(c, steps, step, g, s.handlers[g]);
      }
    }
    forall i | 0 <= i < |s'.log| ensures EventBacked(c, steps + [step], s'.log[i]) {
      if i < |s.log| {
        assert s'.log[i] == s'.log[..|s.log|][i] == s.log[i];
        EventGrows(c, steps, step, s.log[i]);
      }
    }
  }

  lemma StepBacked(c: Config, steps: seq<Step>, s: State, step: Step)
    requires s == After(c, Init(), steps) && Backed(c, steps, s)
    ensures Backed(c, steps + [step], Apply(c, s, step))
  {
    var h := match Actor(step) case Some(g) => g case None => 0;
    match step {
      case Preview(_, _, _, _) => PreviewBacked(c, steps, s, step);
      case Begin(_, req, approvalHash) => BeginBacked(c, steps, s, h, req, approvalHash);
      case Lookup(_, cutoff) => LookupBacked(c, steps, s, h, cutoff);
      case Claim(_) => ClaimBacked(c, steps, s, h);
      case Announce(_, sent) => AnnounceBacked(c, steps, s, h, sent);
      case Run(_, spec, ok, rollbackOk) =>
        RunBacked(c, steps, step, s, h, AttemptRollback(spec, InitialStatus(spec, ok), rollbackOk));
      case Check(_) => CheckBacked(c, steps, s, h);
      case _ => StopBacked(c, steps + [step], s, step, h);
    }
    StepFollows(c, steps, step, s, Apply(c, s, step), h);
  }

  lemma {:induction false} AfterSnoc(c: Config, s: State, steps: seq<Step>, step: Step)
    ensures After(c, s, steps + [step]) == Apply(c, After(c, s, steps), step)
    decreases |steps|
  {
    if steps == [] {
      AfterCons(c, s, step, []);
      assert [] + [step] == [step] + [];
    } else {
      assert (steps + [step])[1..] == steps[1..] + [step];
      AfterSnoc(c, Apply(c, s, steps[0]), steps[1..], step);
    }
  }

  lemma {:induction false} EveryRunIsBacked(c: Config, steps: seq<Step>)
    ensures Backed(c, steps, After(c, Init(), steps))
  {
    if steps != [] {
      var n := |steps| - 1;
      assert steps == steps[..n] + [steps[n]];
      EveryRunIsBacked(c, steps[..n]);
      AfterSnoc(c, Init(), steps[..n], steps[n]);
      StepBacked(c, steps[..n], After(c, Init(), steps[..n]), steps[n]);
    }
  }

  /** In every interleaving, whatever was started or run has these steps of one connection behind it, in this
      order: it asked for that request and sent the request's own hash as the approval; it looked and found the
      row as the newest that was queued, previewed under that hash and created after the cutoff; it claimed the
      row while that was still queued; it sent `JobStarted`; and only then it ran the action. */
  lemma StartedWasApproved(c: Config, steps: seq<Step>, i: nat)
    requires i < |After(c, Init(), steps).log|
    ensures var e := After(c, Init(), steps).log[i];
            && (e.Started? ==> exists h: nat :: Announced(c, steps, h, e.req, e.id))
            && (e.Executed? ==> exists h: nat :: Ran(c, steps, h, e.req, e.id))
  {
    EveryRunIsBacked(c, steps);
    assert EventBacked(c, steps, After(c, Init(), steps).log[i]);
  }

  lemma AskedInPrefix(c: Config, steps: seq<Step>, n: nat, h: nat, req: Request)
    requires n <= |steps| && Asked(c, steps[..n], h, req)
    ensures Asked(c, steps, h, req)
  {
    var k: nat :| k < n && steps[..n][k] == Begin(h, req, ApprovalFor(c, req));
    assert steps[k] == steps[..n][k];
  }

  lemma WonWasAsked(c: Config, steps: seq<Step>, h: nat, req: Request, id: Id)
    requires Won(c, steps, h, req, id)
    ensures Asked(c, steps, h, req)
  {
    var m: nat :| WonAt(c, steps, h, req, id, m);
    var l: nat :| FoundAt(c, steps[..m], h, req, id, l);
    AskedInPrefix(c, steps[..m], l, h, req);
    AskedInPrefix(c, steps, m, h, req);
  }

  lemma AnnouncedWasAsked(c: Config, steps: seq<Step>, h: nat, req: Request, id: Id)
    requires Announced(c, steps, h, req, id)
    ensures Asked(c, steps, h, req)
  {
    var n: nat :| n < |steps| && steps[n] == Announce(h, true) && Won(c, steps[..n], h, req, id);
    WonWasAsked(c, steps[..n], h, req, id);
    AskedInPrefix(c, steps, n, h, req);
  }

  /** In particular, nothing is started or run in any interleaving unless a connection sent the request's own
      hash as its approval. */
  lemma NothingWithoutApproval(c: Config, steps: seq<Step>, i: nat)
    requires i < |After(c, Init(), steps).log| && !After(c, Init(), steps).log[i].Previewed?
    ensures var req := After(c, Init(), steps).log[i].req;
            exists h: nat :: Asked(c, steps, h, req)
  {
    StartedWasApproved(c, steps, i);
    var e := After(c, Init(), steps).log[i];
    if e.Started? {
      var h: nat :| Announced(c, steps, h, e.req, e.id);
      AnnouncedWasAsked(c, steps, h, e.req, e.id);
    } else {
      var h: nat :| Ran(c, steps, h, e.req, e.id);
      var r: nat :| r < |steps| && steps[r].Run? && steps[r].h == h && Announced(c, steps[..r], h, e.req, e.id);
      AnnouncedWasAsked(c, steps[..r], h, e.req, e.id);
      AskedInPrefix(c, steps, r, h, e.req);
    }
  }

  // ----- What the rows of the audit log say -----

  /** The row holds what the preview was given, each thing in its own field. */
  ghost predicate RowOf(c: Config, step: Step, row: ChainContent) {
    && step.Preview?
    && row.transactionId == step.id
    && row.requestHash == ApprovalFor(c, step.req)
    && row.actionName == step.req.action
    && row.requestId == step.tx.requestId
    && row.riskLevel == step.tx.riskLevel
    && row.summary == step.tx.summary
    && row.approvalId == step.tx.approvalId
    && row.warningsJson == step.tx.warningsJson
    && row.createdAt == step.createdAt
  }

  ghost predicate RecordedBy(c: Config, steps: seq<Step>, row: ChainContent) {
    exists k: nat :: k < |steps| && RowOf(c, steps[k], row)
  }

  lemma RecordedGrows(c: Config, steps: seq<Step>, step: Step, row: ChainContent)
    requires RecordedBy(c, steps, row)
    ensures RecordedBy(c, steps + [step], row)
  {
    var k: nat :| k < |steps| && RowOf(c, steps[k], row);
    assert (steps + [step])[k] == steps[k];
  }

  lemma PreviewAdds(c: Config, s: State, step: Step)
    requires step.Preview?
    ensures var rows, rows' := s.table.chain, Apply(c, s, step).table.chain;
            rows' == rows || (|rows'| == |rows| + 1 && rows'[..|rows|] == rows && RowOf(c, step, rows'[|rows|].content))
  {
  }

  lemma RowsStep(c: Config, steps: seq<Step>, s: State, step: Step)
    requires forall i | 0 <= i < |s.table.chain| :: RecordedBy(c, steps, s.table.chain[i].content)
    ensures var rows := Apply(c, s, step).table.chain;
            forall i | 0 <= i < |rows| :: RecordedBy(c, steps + [step], rows[i].content)
  {
    var rows, rows' := s.table.chain, Apply(c, s, step).table.chain;
    if step.Preview? {
      PreviewAdds(c, s, step);
    } else {
      StepKeepsRows(c, s, step);
    }
    LastStep(steps, step);
    forall i | 0 <= i < |rows'| ensures RecordedBy(c, steps + [step], rows'[i].content) {
      if i < |rows| {
        assert rows'[i] == rows'[..|rows|][i] == rows[i];
        RecordedGrows(c, steps, step, rows[i].content);
      }
    }
  }

  /** In every interleaving each row of the audit log is the record of a preview that took place, field by field. */
  lemma {:induction false} EveryRowIsRecorded(c: Config, steps: seq<Step>)
    ensures var rows := After(c, Init(), steps).table.chain;
            forall i | 0 <= i < |rows| :: RecordedBy(c, steps, rows[i].content)
  {
    if steps != [] {
      var n := |steps| - 1;
      assert steps == steps[..n] + [steps[n]];
      EveryRowIsRecorded(c, steps[..n]);
      AfterSnoc(c, Init(), steps[..n], steps[n]);
      RowsStep(c, steps[..n], After(c, Init(), steps[..n]), steps[n]);
    }
  }

  // ----- These steps suffice -----

  /** The steps of one execute request that nothing interrupts. */
  function Serve(h: nat, req: Request, approvalHash: seq<byte>, cutoff: seq<byte>,
                 spec: ActionSpec, ok: bool, rollbackOk: bool): seq<Step> {
    [Begin(h, req, approvalHash), Lookup(h, cutoff)]
    + ([Claim(h), Announce(h, true)] + ([Run(h, spec, ok, rollbackOk), Check(h)] + [Write(h)]))
  }

  /** How an action that ran ends. */
  function Outcome(spec: ActionSpec, ok: bool, rollbackOk: bool): JobState {
    if ok then if spec.rebootRequired then NeedsReboot else Succeeded
    else if spec.rollbackAvailable && spec.hasRollbackSpec && rollbackOk then RolledBack else Failed
  }

  ghost predicate Refused(c: Config, t: Table, req: Request, approvalHash: seq<byte>, cutoff: seq<byte>) {
    approvalHash != ApprovalFor(c, req) || forall i: nat | i < |t.chain| :: !Approves(c, t, req, cutoff, i)
  }

  lemma NoHandlerNoStep(c: Config, s: State, h: nat, step: Step)
    requires h !in s.handlers && Actor(step) == Some(h) && !step.Begin?
    ensures Apply(c, s, step) == s
  {
    assert s.handlers - {h} == s.handlers;
  }

  lemma {:induction false} NoHandlerNoRun(c: Config, s: State, h: nat, steps: seq<Step>)
    requires h !in s.handlers && forall k | 0 <= k < |steps| :: Actor(steps[k]) == Some(h) && !steps[k].Begin?
    ensures After(c, s, steps) == s
    decreases |steps|
  {
    if steps != [] {
      NoHandlerNoStep(c, s, h, steps[0]);
      NoHandlerNoRun(c, s, h, steps[1..]);
    }
  }

  /** The row was started, run and moved to its final status, and nothing else happened. */
  ghost predicate Served(s: State, s': State, req: Request, id: Id, final: JobState) {
    && s'.table == Table(s.table.chain, s.table.status[id := final])
    && s'.handlers == s.handlers
    && s'.log == s.log + [Started(id, req), Executed(id, req)]
    && id in s.trails && s'.trails == s.trails[id := s.trails[id] + [Running, final]]
  }

  lemma TracksTwice(trails: map<Id, seq<JobState>>, id: Id, next: JobState, last: JobState)
    requires id in trails
    ensures Track(Track(trails, id, next), id, last) == trails[id := trails[id] + [next, last]]
  {
    assert trails[id] + [next] + [last] == trails[id] + [next, last];
  }

  lemma FindsNewestApproval(c: Config, t: Table, req: Request, cutoff: seq<byte>, id: Id)
    requires NewestApproval(c, t, req, cutoff, id)
    ensures Find(t, Hash(c, req), cutoff) == Some(id)
  {
    var i: nat :| NewestAt(c, t, req, cutoff, i) && t.chain[i].content.transactionId == id;
    assert Matches(t, t.chain[i], Hash(c, req), cutoff);
    var k := FoundIsNewest(c, t, req, cutoff);
    assert !(i < k) && !(k < i);
  }

  lemma AfterTwo(c: Config, s: State, x: Step, y: Step, later: seq<Step>, s1: State, s2: State)
    requires Apply(c, s, x) == s1 && Apply(c, s1, y) == s2
    ensures After(c, s, [x, y] + later) == After(c, s2, later)
  {
    assert [x, y] + later == [x] + ([y] + later);
    AfterCons(c, s, x, [y] + later);
    AfterCons(c, s1, y, later);
  }

  lemma RefusedLookup(c: Config, s: State, h: nat, req: Request, cutoff: seq<byte>)
    requires h !in s.handlers && forall i: nat | i < |s.table.chain| :: !Approves(c, s.table, req, cutoff, i)
    ensures Apply(c, s.(handlers := s.handlers[h := Looking(req)]), Lookup(h, cutoff)) == s
  {
    FindsNoApproval(c, s.table, req, cutoff);
    assert s.handlers[h := Looking(req)] - {h} == s.handlers;
  }

  lemma RefusedServe(c: Config, s: State, h: nat, req: Request, approvalHash: seq<byte>, cutoff: seq<byte>,
                     later: seq<Step>)
    requires h !in s.handlers && Refused(c, s.table, req, approvalHash, cutoff)
    requires forall k | 0 <= k < |later| :: Actor(later[k]) == Some(h) && !later[k].Begin?
    ensures After(c, s, [Begin(h, req, approvalHash), Lookup(h, cutoff)] + later) == s
  {
    if approvalHash == ApprovalFor(c, req) {
      var s1 := s.(handlers := s.handlers[h := Looking(req)]);
      BeginOpens(c, s, h, req);
      RefusedLookup(c, s, h, req, cutoff);
      AfterTwo(c, s, Begin(h, req, approvalHash), Lookup(h, cutoff), later, s1, s);
    } else {
      AfterTwo(c, s, Begin(h, req, approvalHash), Lookup(h, cutoff), later, s, s);
    }
    NoHandlerNoRun(c, s, h, later);
  }

  lemma BeginOpens(c: Config, s: State, h: nat, req: Request)
    requires h !in s.handlers
    ensures Apply(c, s, Begin(h, req, ApprovalFor(c, req))) == s.(handlers := s.handlers[h := Looking(req)])
  {
  }

  lemma LookupApproved(c: Config, s: State, handlers: map<nat, Handler>, h: nat, req: Request, cutoff: seq<byte>,
                       id: Id)
    requires s.handlers == handlers[h := Looking(req)] && Find(s.table, Hash(c, req), cutoff) == Some(id)
    ensures Apply(c, s, Lookup(h, cutoff)) == s.(handlers := handlers[h := Claiming(req, id)])
  {
    assert s.handlers[h := Claiming(req, id)] == handlers[h := Claiming(req, id)];
  }

  lemma ClaimTakes(c: Config, s: State, handlers: map<nat, Handler>, h: nat, req: Request, id: Id)
    requires s.handlers == handlers[h := Claiming(req, id)]
    requires id in s.table.status && s.table.status[id] == Queued
    ensures Apply(c, s, Claim(h))
         == State(Table(s.table.chain, s.table.status[id := Running]), handlers[h := Announcing(req, id)],
                  s.log, Track(s.trails, id, Running))
  {
    assert s.handlers[h := Announcing(req, id)] == handlers[h := Announcing(req, id)];
  }

  lemma AnnounceStarts(c: Config, s: State, handlers: map<nat, Handler>, h: nat, req: Request, id: Id)
    requires s.handlers == handlers[h := Announcing(req, id)]
    ensures Apply(c, s, Announce(h, true))
         == s.(handlers := handlers[h := Executing(req, id)], log := s.log + [Started(id, req)])
  {
    assert s.handlers[h := Executing(req, id)] == handlers[h := Executing(req, id)];
  }

  lemma RunOutcome(c: Config, s: State, handlers: map<nat, Handler>, h: nat, req: Request, id: Id,
                   spec: ActionSpec, ok: bool, rollbackOk: bool)
    requires s.handlers == handlers[h := Executing(req, id)]
    ensures Apply(c, s, Run(h, spec, ok, rollbackOk))
         == s.(handlers := handlers[h := Checking(req, id, Outcome(spec, ok, rollbackOk))],
               log := s.log + [Executed(id, req)])
  {
    var final := Outcome(spec, ok, rollbackOk);
    assert s.handlers[h := Checking(req, id, final)] == handlers[h := Checking(req, id, final)];
  }

  lemma CheckAllows(c: Config, s: State, handlers: map<nat, Handler>, h: nat, req: Request, id: Id, final: JobState)
    requires s.handlers == handlers[h := Checking(req, id, final)]
    requires id in s.table.status && AllowedTransition(s.table.status[id], final)
    ensures Apply(c, s, Check(h)) == s.(handlers := handlers[h := Writing(req, id, final)])
  {
    assert s.handlers[h := Writing(req, id, final)] == handlers[h := Writing(req, id, final)];
  }

  /** From the request to the claim. */
  lemma ServeStarts(c: Config, s: State, h: nat, req: Request, cutoff: seq<byte>, id: Id, later: seq<Step>)
    requires h !in s.handlers && NewestApproval(c, s.table, req, cutoff, id)
    ensures After(c, s, [Begin(h, req, ApprovalFor(c, req)), Lookup(h, cutoff)] + later)
         == After(c, s.(handlers := s.handlers[h := Claiming(req, id)]), later)
  {
    var s1 := s.(handlers := s.handlers[h := Looking(req)]);
    BeginOpens(c, s, h, req);
    FindsNewestApproval(c, s.table, req, cutoff, id);
    LookupApproved(c, s1, s.handlers, h, req, cutoff, id);
    AfterTwo(c, s, Begin(h, req, ApprovalFor(c, req)), Lookup(h, cutoff), later, s1,
             s.(handlers := s.handlers[h := Claiming(req, id)]));
  }

  /** From the claim to the start. */
  lemma ServeClaims(c: Config, s: State, handlers: map<nat, Handler>, h: nat, req: Request, id: Id, later: seq<Step>)
    requires s.handlers == handlers[h := Claiming(req, id)]
    requires id in s.table.status && s.table.status[id] == Queued
    ensures After(c, s, [Claim(h), Announce(h, true)] + later)
         == After(c, State(Table(s.table.chain, s.table.status[id := Running]), handlers[h := Executing(req, id)],
                           s.log + [Started(id, req)], Track(s.trails, id, Running)), later)
  {
    var s1 := State(Table(s.table.chain, s.table.status[id := Running]), handlers[h := Announcing(req, id)],
                    s.log, Track(s.trails, id, Running));
    ClaimTakes(c, s, handlers, h, req, id);
    AnnounceStarts(c, s1, handlers, h, req, id);
    AfterTwo(c, s, Claim(h), Announce(h, true), later, s1,
             s1.(handlers := handlers[h := Executing(req, id)], log := s.log + [Started(id, req)]));
  }

  /** From the start to the check. */
  lemma ServeRuns(c: Config, s: State, handlers: map<nat, Handler>, h: nat, req: Request, id: Id,
                  spec: ActionSpec, ok: bool, rollbackOk: bool, later: seq<Step>)
    requires s.handlers == handlers[h := Executing(req, id)]
    requires id in s.table.status && s.table.status[id] == Running
    ensures After(c, s, [Run(h, spec, ok, rollbackOk), Check(h)] + later)
         == After(c, s.(handlers := handlers[h := Writing(req, id, Outcome(spec, ok, rollbackOk))],
                        log := s.log + [Executed(id, req)]), later)
  {
    var final := Outcome(spec, ok, rollbackOk);
    var s1 := s.(handlers := handlers[h := Checking(req, id, final)], log := s.log + [Executed(id, req)]);
    RunOutcome(c, s, handlers, h, req, id, spec, ok, rollbackOk);
    CheckAllows(c, s1, handlers, h, req, id, final);
    AfterTwo(c, s, Run(h, spec, ok, rollbackOk), Check(h), later, s1,
             s1.(handlers := handlers[h := Writing(req, id, final)]));
  }

  lemma ServeWrites(c: Config, s: State, handlers: map<nat, Handler>, h: nat, req: Request, id: Id, final: JobState)
    requires h !in handlers && s.handlers == handlers[h := Writing(req, id, final)] && id in s.table.status
    ensures After(c, s, [Write(h)])
         == State(Table(s.table.chain, s.table.status[id := final]), handlers, s.log, Track(s.trails, id, final))
  {
    AfterCons(c, s, Write(h), []);
    assert [Write(h)] + [] == [Write(h)];
    assert s.handlers - {h} == handlers;
  }

  lemma ApprovedServe(c: Config, s: State, h: nat, req: Request, cutoff: seq<byte>, id: Id,
                      spec: ActionSpec, ok: bool, rollbackOk: bool)
    requires h !in s.handlers && id in s.trails && NewestApproval(c, s.table, req, cutoff, id)
    ensures Served(s, After(c, s, Serve(h, req, ApprovalFor(c, req), cutoff, spec, ok, rollbackOk)), req, id,
                   Outcome(spec, ok, rollbackOk))
  {
    var final := Outcome(spec, ok, rollbackOk);
    var run := [Run(h, spec, ok, rollbackOk), Check(h)] + [Write(h)];
    ServeStarts(c, s, h, req, cutoff, id, [Claim(h), Announce(h, true)] + run);
    var s1 := s.(handlers := s.handlers[h := Claiming(req, id)]);
    ServeClaims(c, s1, s.handlers, h, req, id, run);
    var s2 := State(Table(s.table.chain, s.table.status[id := Running]), s.handlers[h := Executing(req, id)],
                    s.log + [Started(id, req)], Track(s.trails, id, Running));
    ServeRuns(c, s2, s.handlers, h, req, id, spec, ok, rollbackOk, [Write(h)]);
    var s3 := s2.(handlers := s.handlers[h := Writing(req, id, final)], log := s2.log + [Executed(id, req)]);
    ServeWrites(c, s3, s.handlers, h, req, id, final);
    TracksTwice(s.trails, id, Running, final);
    assert s.table.status[id := Running][id := final] == s.table.status[id := final];
    assert s.log + [Started(id, req)] + [Executed(id, req)] == s.log + [Started(id, req), Executed(id, req)];
  }

  lemma {:induction false} NewestExists(c: Config, t: Table, req: Request, cutoff: seq<byte>, n: nat) returns (i: nat)
    requires n <= |t.chain| && (exists i: nat :: i < n && Approves(c, t, req, cutoff, i))
    requires forall j | n <= j < |t.chain| :: !Approves(c, t, req, cutoff, j)
    ensures NewestAt(c, t, req, cutoff, i)
  {
    if Approves(c, t, req, cutoff, n - 1) {
      i := n - 1;
    } else {
      i := NewestExists(c, t, req, cutoff, n - 1);
    }
  }

  lemma ApprovedRow(c: Config, s: State, req: Request, cutoff: seq<byte>) returns (id: Id)
    requires Inv(c, s) && exists i: nat :: i < |s.table.chain| && Approves(c, s.table, req, cutoff, i)
    ensures NewestApproval(c, s.table, req, cutoff, id) && id in s.trails
  {
    var i := NewestExists(c, s.table, req, cutoff, |s.table.chain|);
    id := s.table.chain[i].content.transactionId;
    assert TrailsOk(s.table.status, s.trails);
  }

  /** What an execute request does that nothing interrupts, on a free connection and in any state. Unless the
      approval is the request's own hash and a queued row newer than the cutoff was previewed under it, nothing at
      all. Otherwise the newest such row, and no other, is started, run and moved through Running to what the
      action came to. */
  lemma ServedExactly(c: Config, s: State, h: nat, req: Request, approvalHash: seq<byte>, cutoff: seq<byte>,
                      spec: ActionSpec, ok: bool, rollbackOk: bool)
    requires Inv(c, s) && h !in s.handlers
    ensures var s' := After(c, s, Serve(h, req, approvalHash, cutoff, spec, ok, rollbackOk));
            if Refused(c, s.table, req, approvalHash, cutoff) then s' == s
            else exists id :: NewestApproval(c, s.table, req, cutoff, id)
                              && Served(s, s', req, id, Outcome(spec, ok, rollbackOk))
  {
    if Refused(c, s.table, req, approvalHash, cutoff) {
      RefusedServe(c, s, h, req, approvalHash, cutoff,
                   [Claim(h), Announce(h, true)] + ([Run(h, spec, ok, rollbackOk), Check(h)] + [Write(h)]));
    } else {
      var id := ApprovedRow(c, s, req, cutoff);
      ApprovedServe(c, s, h, req, cutoff, id, spec, ok, rollbackOk);
    }
  }

  // ----- Cleanup -----

  /** The row is queued and was not created after the cutoff. */
  ghost predicate Expired(t: Table, id: Id, cutoff: seq<byte>) {
    && id in t.status && t.status[id] == Queued
    && exists i :: 0 <= i < |t.chain| && t.chain[i].content.transactionId == id
                   && !KeyOrder.Less(cutoff, t.chain[i].content.createdAt)
  }

  lemma StaleIsExpired(t: Table, id: Id, cutoff: seq<byte>)
    ensures id in StaleIds(t, cutoff) <==> Expired(t, id, cutoff)
  {
    if id in StaleIds(t, cutoff) {
      var i :| 0 <= i < |t.chain| && RowId(t.chain[i]) == id && !NewerThan(t.chain[i], cutoff);
      assert t.chain[i].content.transactionId == id;
    }
    if Expired(t, id, cutoff) {
      var i :| 0 <= i < |t.chain| && t.chain[i].content.transactionId == id
               && !KeyOrder.Less(cutoff, t.chain[i].content.createdAt);
      assert RowId(t.chain[i]) == id && !NewerThan(t.chain[i], cutoff);
    }
  }

  /** In every state cleanup cancels the expired rows and no others, and touches no connection, no event and no row of
      the audit log. */
  lemma CleanupExactly(c: Config, s: State, cutoff: seq<byte>, id: Id)
    requires Inv(c, s) && id in s.table.status
    ensures var s' := Apply(c, s, Cleanup(cutoff));
            && s'.table.chain == s.table.chain && s'.handlers == s.handlers && s'.log == s.log
            && id in s'.table.status && id in s'.trails
            && if Expired(s.table, id, cutoff)
               then s'.table.status[id] == Canceled && s'.trails[id] == s.trails[id] + [Canceled]
               else s'.table.status[id] == s.table.status[id] && s'.trails[id] == s.trails[id]
  {
    StaleIsExpired(s.table, id, cutoff);
    assert TrailsOk(s.table.status, s.trails);
  }

  /** A restart of the daemon loses every connection, so a row that is running then stays running for good: it is
      never started, run or moved again, whatever follows. */
  lemma RestartOrphans(c: Config, s: State, steps: seq<Step>, id: Id)
    requires IsRunning(s, id)
    ensures StaysOrphaned(s, After(c, s, [Restart] + steps), id)
  {
    var s1 := Apply(c, s, Restart);
    AfterCons(c, s, Restart, steps);
    assert Orphaned(s1, id);
    OrphanForever(c, s1, steps, id);
  }
}
