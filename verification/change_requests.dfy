/**
Change requests of compute allocations (pkg/service/compute_allocation_change_request.go):
the request table, its append-only event log, and the diffs that approvals leave behind.
 */
module ChangeRequests {
  import opened Common

  type Id = string

  const PENDING := "PENDING"
  const APPROVED := "APPROVED"
  const CREATED := "CREATED"
  const UPDATED := "UPDATED"
  const DELETED := "DELETED"
  const ACTIVE := "ACTIVE"
  const APPROVAL_DIFF := "CHANGE_REQUEST_APPROVED"

  /** Blank strings and a zero time stand for fields the caller left out. */
  datatype Request = Request(
    allocation: Id, su: int, requestedStatus: string, reason: string,
    changeStatus: string, requester: Id, approver: Id, time: nat)

  datatype Event = Event(request: Id, kind: string)
  datatype Diff = Diff(request: Id, allocation: Id, kind: string, su: int, status: string)

  datatype Db = Db(allocations: set<Id>, requests: map<Id, Request>, events: seq<Event>, diffs: seq<Diff>)

  datatype Error = InvalidInput | NotFound | Constraint | Unrecorded
  datatype Outcome = Done | Refused(error: Error)
  datatype Reply = Reply(db: Db, outcome: Outcome)

  // ---------- The three calls ----------

  /** `id` is the caller's, or fresh if they gave none; `now` is the clock. */
  function Create(db: Db, id: Id, req: Request, now: nat): Reply {
    if req.allocation == "" || req.requester == "" || req.allocation !in db.allocations then Reply(db, Refused(InvalidInput))
    else if id in db.requests then Reply(db, Refused(Constraint))
    else
      var stored := req.(changeStatus := if req.changeStatus == "" then PENDING else req.changeStatus,
                         time := if req.time == 0 then now else req.time);
      Reply(db.(requests := db.requests[id := stored], events := db.events + [Event(id, CREATED)]), Done)
  }

  function Filled(req: Request, existing: Request): Request {
    req.(allocation := if req.allocation == "" then existing.allocation else req.allocation,
         requester := if req.requester == "" then existing.requester else req.requester,
         changeStatus := if req.changeStatus == "" then existing.changeStatus else req.changeStatus,
         time := if req.time == 0 then existing.time else req.time)
  }

  function ApprovalDiff(id: Id, req: Request): Diff {
    Diff(id, req.allocation, APPROVAL_DIFF, req.su, if req.requestedStatus == "" then ACTIVE else req.requestedStatus)
  }

  /** The diff is written after the update has committed; `diffFails` says that this did not work. */
  function Update(db: Db, id: Id, req: Request, diffFails: bool): Reply {
    if id == "" then Reply(db, Refused(InvalidInput))
    else if id !in db.requests then Reply(db, Refused(NotFound))
    else
      var existing := db.requests[id];
      var stored := Filled(req, existing);
      if stored.allocation !in db.allocations then Reply(db, Refused(Constraint))
      else
        var moved := stored.changeStatus != existing.changeStatus;
        var updated := db.(requests := db.requests[id := stored],
                           events := db.events + [Event(id, if moved then stored.changeStatus else UPDATED)]);
        if !(moved && stored.changeStatus == APPROVED) then Reply(updated, Done)
        else if diffFails then Reply(updated, Refused(Unrecorded))
        else Reply(updated.(diffs := updated.diffs + [ApprovalDiff(id, stored)]), Done)
  }

  function Delete(db: Db, id: Id): Reply {
    if id == "" then Reply(db, Refused(InvalidInput))
    else if id !in db.requests then Reply(db, Refused(NotFound))
    else Reply(db.(requests := db.requests - {id}, events := db.events + [Event(id, DELETED)]), Done)
  }

  datatype Step =
    | CreateStep(id: Id, req: Request, now: nat)
    | UpdateStep(id: Id, req: Request, diffFails: bool)
    | DeleteStep(id: Id)

  function Apply(db: Db, step: Step): Reply {
    match step
    case CreateStep(id, req, now) => Create(db, id, req, now)
    case UpdateStep(id, req, diffFails) => Update(db, id, req, diffFails)
    case DeleteStep(id) => Delete(db, id)
  }

  function Run(db: Db, steps: seq<Step>): Db
    decreases |steps|
  {
    if steps == [] then db else Run(Apply(db, steps[0]).db, steps[1..])
  }

  // ---------- What each call leaves ----------

  /** The allocation the call gives, or else the one stored, exists. */
  predicate TargetExists(db: Db, id: Id, req: Request)
    requires id in db.requests
  {
    if req.allocation == "" then db.requests[id].allocation in db.allocations else req.allocation in db.allocations
  }

  /** One request differs at most, and the log gains one event about it. */
  ghost predicate TouchesOne(db: Db, after: Db, id: Id, kind: string) {
    && after.allocations == db.allocations
    && after.events == db.events + [Event(id, kind)]
    && forall i :: i != id ==>
         (i in after.requests <==> i in db.requests) && (i in db.requests ==> after.requests[i] == db.requests[i])
  }

  /** A request is stored as given, PENDING and dated now unless it says otherwise. */
  lemma CreateIs(db: Db, id: Id, req: Request, now: nat)
    ensures var reply := Create(db, id, req, now);
      var malformed := req.allocation == "" || req.requester == "" || req.allocation !in db.allocations;
      && reply.outcome == (if malformed then Refused(InvalidInput) else if id in db.requests then Refused(Constraint) else Done)
      && (reply.outcome.Refused? ==> reply.db == db)
      && (reply.outcome.Done? ==>
            && TouchesOne(db, reply.db, id, "CREATED") && reply.db.diffs == db.diffs && id in reply.db.requests
            && var stored := reply.db.requests[id];
               && stored.allocation == req.allocation && stored.requester == req.requester && stored.approver == req.approver
               && stored.su == req.su && stored.requestedStatus == req.requestedStatus && stored.reason == req.reason
               && stored.changeStatus == (if req.changeStatus == "" then "PENDING" else req.changeStatus)
               && stored.time == (if req.time == 0 then now else req.time))
  {
  }

  /** A blank allocation, requester, status or time keeps the stored one; every other field is the call's. */
  lemma UpdateStores(db: Db, id: Id, req: Request, diffFails: bool)
    ensures var reply := Update(db, id, req, diffFails);
      && (reply.outcome == Refused(InvalidInput) <==> id == "")
      && (reply.outcome == Refused(NotFound) <==> id != "" && id !in db.requests)
      && (reply.outcome == Refused(Constraint) <==> id != "" && id in db.requests && !TargetExists(db, id, req))
      && (id == "" || id !in db.requests || !TargetExists(db, id, req) ==> reply.db == db)
      && (id != "" && id in db.requests && TargetExists(db, id, req) ==>
            && id in reply.db.requests
            && var was, stored := db.requests[id], reply.db.requests[id];
               && stored.allocation == (if req.allocation == "" then was.allocation else req.allocation)
               && stored.requester == (if req.requester == "" then was.requester else req.requester)
               && stored.changeStatus == (if req.changeStatus == "" then was.changeStatus else req.changeStatus)
               && stored.time == (if req.time == 0 then was.time else req.time)
               && stored.su == req.su && stored.requestedStatus == req.requestedStatus
               && stored.reason == req.reason && stored.approver == req.approver
               && TouchesOne(db, reply.db, id,
                             if stored.changeStatus == was.changeStatus then "UPDATED" else stored.changeStatus))
  {
  }

  lemma DeleteIs(db: Db, id: Id)
    ensures var reply := Delete(db, id);
      && reply.outcome == (if id == "" then Refused(InvalidInput) else if id !in db.requests then Refused(NotFound) else Done)
      && (reply.outcome.Refused? ==> reply.db == db)
      && (reply.outcome.Done? ==>
            id !in reply.db.requests && reply.db.diffs == db.diffs && TouchesOne(db, reply.db, id, "DELETED"))
  {
  }

  // ---------- Reading the log ----------

  /** The status the log tells of one request; none before it is created and after it is deleted. */
  function Fold(events: seq<Event>, id: Id): Option<string> {
    if events == [] then None
    else
      var e := events[|events| - 1];
      var before := Fold(events[..|events| - 1], id);
      if e.request != id || e.kind == UPDATED then before
      else if e.kind == CREATED then Some(PENDING)
      else if e.kind == DELETED then None
      else Some(e.kind)
  }

  function Stored(db: Db, id: Id): Option<string> {
    if id in db.requests then Some(db.requests[id].changeStatus) else None
  }

  ghost predicate Agrees(db: Db) {
    forall id :: Fold(db.events, id) == Stored(db, id)
  }

  predicate Reserved(status: string) {
    status == CREATED || status == UPDATED || status == DELETED
  }

  lemma FoldOneMore(events: seq<Event>, e: Event, id: Id)
    ensures Fold(events + [e], id) ==
      if e.request != id || e.kind == UPDATED then Fold(events, id)
      else if e.kind == CREATED then Some(PENDING)
      else if e.kind == DELETED then None
      else Some(e.kind)
  {
  }

  lemma CreateAgreesIff(db: Db, id: Id, req: Request, now: nat)
    requires Agrees(db) && Create(db, id, req, now).outcome.Done?
    ensures Agrees(Create(db, id, req, now).db) <==> req.changeStatus == "" || req.changeStatus == PENDING
  {
    var after := Create(db, id, req, now).db;
    forall i ensures Fold(after.events, i) == if i == id then Some(PENDING) else Stored(db, i) {
      FoldOneMore(db.events, Event(id, CREATED), i);
      assert Fold(db.events, i) == Stored(db, i);
    }
    assert Fold(after.events, id) == Some(PENDING);
  }

  lemma UpdateAgreesIff(db: Db, id: Id, req: Request, diffFails: bool)
    requires Agrees(db) && id != "" && id in db.requests && TargetExists(db, id, req)
    ensures Agrees(Update(db, id, req, diffFails).db) <==>
      !(req.changeStatus != db.requests[id].changeStatus && Reserved(req.changeStatus))
  {
    var after := Update(db, id, req, diffFails).db;
    var e := after.events[|db.events|];
    assert after.events == db.events + [e];
    forall i ensures i != id ==> Fold(after.events, i) == Stored(after, i) {
      FoldOneMore(db.events, e, i);
      assert Fold(db.events, i) == Stored(db, i);
    }
    FoldOneMore(db.events, e, id);
    assert Fold(db.events, id) == Stored(db, id);
    assert Agrees(after) <==> Fold(after.events, id) == Stored(after, id);
  }

  lemma DeleteAgrees(db: Db, id: Id)
    requires Agrees(db)
    ensures Agrees(Delete(db, id).db)
  {
  }

  /** Requests start PENDING, and no update moves one to a status that is also a log keyword. */
  predicate Plain(step: Step) {
    match step
    case CreateStep(_, req, _) => req.changeStatus == "" || req.changeStatus == PENDING
    case UpdateStep(_, req, _) => !Reserved(req.changeStatus)
    case DeleteStep(_) => true
  }

  lemma StepAgrees(db: Db, step: Step)
    requires Agrees(db) && Plain(step)
    ensures Agrees(Apply(db, step).db)
  {
  }

  /** Over every such run, folding the log gives the stored status of every request, deleted ones included. */
  lemma {:induction false} LogAgreesOverRun(db: Db, steps: seq<Step>)
    requires Agrees(db) && forall i :: 0 <= i < |steps| ==> Plain(steps[i])
    ensures Agrees(Run(db, steps))
    decreases |steps|
  {
    if steps != [] {
      StepAgrees(db, steps[0]);
      LogAgreesOverRun(Apply(db, steps[0]).db, steps[1..]);
    }
  }

  const EMPTY := Db({"a"}, map[], [], [])
  const BORN_APPROVED := Request("a", 10, "", "", APPROVED, "u", "", 1)

  /** A request may be created APPROVED: the log then says PENDING, and there is no diff. */
  lemma BornApprovedDisagrees()
    ensures Agrees(EMPTY)
    ensures var reply := Create(EMPTY, "r", BORN_APPROVED, 1);
      && reply.outcome.Done? && !Agrees(reply.db)
      && Stored(reply.db, "r") == Some(APPROVED) && Fold(reply.db.events, "r") == Some(PENDING) && reply.db.diffs == []
  {
    CreateAgreesIff(EMPTY, "r", BORN_APPROVED, 1);
    FoldOneMore([], Event("r", CREATED), "r");
  }

  /** Moved to DELETED, a stored request reads from the log as one that does not exist. */
  lemma MovedToKeywordDisagrees(db: Db, id: Id, req: Request)
    requires Agrees(db) && id != "" && id in db.requests && db.requests[id].changeStatus == PENDING
    requires req.changeStatus == DELETED && (req.allocation == "" || req.allocation in db.allocations)
    requires db.requests[id].allocation in db.allocations
    ensures var reply := Update(db, id, req, false);
      reply.outcome.Done? && Stored(reply.db, id) == Some(DELETED) && Fold(reply.db.events, id) == None && !Agrees(reply.db)
  {
    FoldOneMore(db.events, Event(id, DELETED), id);
    UpdateAgreesIff(db, id, req, false);
  }

  // ---------- Approvals and diffs ----------

  function Approvals(events: seq<Event>, id: Id): nat {
    if events == [] then 0
    else Approvals(events[..|events| - 1], id) + if events[|events| - 1] == Event(id, APPROVED) then 1 else 0
  }

  function DiffsOf(diffs: seq<Diff>, id: Id): nat {
    if diffs == [] then 0
    else DiffsOf(diffs[..|diffs| - 1], id) + if diffs[|diffs| - 1].request == id then 1 else 0
  }

  /** The call would move a stored request into APPROVED, and its diff cannot be written. */
  predicate LosesDiff(db: Db, step: Step) {
    && step.UpdateStep? && step.diffFails
    && step.id != "" && step.id in db.requests
    && step.req.changeStatus == APPROVED && db.requests[step.id].changeStatus != APPROVED
    && TargetExists(db, step.id, step.req)
  }

  /** 1 for an approval of this request whose diff could not be written. */
  function Lost(db: Db, step: Step, id: Id): nat {
    if LosesDiff(db, step) && step.id == id then 1 else 0
  }

  function LostOver(db: Db, steps: seq<Step>, id: Id): nat
    decreases |steps|
  {
    if steps == [] then 0 else Lost(db, steps[0], id) + LostOver(Apply(db, steps[0]).db, steps[1..], id)
  }

  lemma ApprovalsOneMore(events: seq<Event>, e: Event, id: Id)
    ensures Approvals(events + [e], id) == Approvals(events, id) + if e == Event(id, APPROVED) then 1 else 0
  {
    assert (events + [e])[..|events|] == events;
  }

  lemma DiffsOneMore(diffs: seq<Diff>, d: Diff, id: Id)
    ensures DiffsOf(diffs + [d], id) == DiffsOf(diffs, id) + if d.request == id then 1 else 0
  {
    assert (diffs + [d])[..|diffs|] == diffs;
  }

  lemma UpdateCountsApprovals(db: Db, step: Step, id: Id)
    requires step.UpdateStep?
    ensures var after := Apply(db, step).db;
      Approvals(after.events, id) - DiffsOf(after.diffs, id)
        == Approvals(db.events, id) - DiffsOf(db.diffs, id) + Lost(db, step, id)
  {
    var after := Apply(db, step).db;
    if after != db {
      var stored := Filled(step.req, db.requests[step.id]);
      var moved := stored.changeStatus != db.requests[step.id].changeStatus;
      ApprovalsOneMore(db.events, Event(step.id, if moved then stored.changeStatus else UPDATED), id);
      DiffsOneMore(db.diffs, ApprovalDiff(step.id, stored), id);
    }
  }

  lemma StepCountsApprovals(db: Db, step: Step, id: Id)
    ensures var after := Apply(db, step).db;
      Approvals(after.events, id) - DiffsOf(after.diffs, id)
        == Approvals(db.events, id) - DiffsOf(db.diffs, id) + Lost(db, step, id)
  {
    match step
    case CreateStep(other, _, _) => ApprovalsOneMore(db.events, Event(other, CREATED), id);
    case UpdateStep(_, _, _) => UpdateCountsApprovals(db, step, id);
    case DeleteStep(other) => ApprovalsOneMore(db.events, Event(other, DELETED), id);
  }

  /**
  Over every run, whatever the statuses, a request has as many diffs as APPROVED events, but
  for those that failed to be written.
   */
  lemma {:induction false} DiffsMatchApprovals(db: Db, steps: seq<Step>, id: Id)
    ensures var after := Run(db, steps);
      Approvals(after.events, id) - DiffsOf(after.diffs, id)
        == Approvals(db.events, id) - DiffsOf(db.diffs, id) + LostOver(db, steps, id)
    decreases |steps|
  {
    if steps != [] {
      StepCountsApprovals(db, steps[0], id);
      DiffsMatchApprovals(Apply(db, steps[0]).db, steps[1..], id);
    }
  }

  /** The call moves a stored request into APPROVED and its diff is written. */
  predicate Approves(db: Db, step: Step) {
    && step.UpdateStep? && !step.diffFails
    && step.id != "" && step.id in db.requests && TargetExists(db, step.id, step.req)
    && step.req.changeStatus == APPROVED && db.requests[step.id].changeStatus != APPROVED
  }

  /** Such a call, and no other, appends one diff: of that request, on its allocation, with the call's units and status. */
  lemma ApprovalWrites(db: Db, step: Step)
    ensures var after := Apply(db, step).db;
      && (Apply(db, step).outcome == Refused(Unrecorded) <==> LosesDiff(db, step))
      && (!Approves(db, step) ==> after.diffs == db.diffs)
      && (Approves(db, step) ==>
            && |after.diffs| == |db.diffs| + 1 && db.diffs <= after.diffs
            && var d := after.diffs[|db.diffs|];
               && d.request == step.id
               && d.allocation == (if step.req.allocation == "" then db.requests[step.id].allocation else step.req.allocation)
               && d.kind == "CHANGE_REQUEST_APPROVED"
               && d.su == step.req.su
               && d.status == (if step.req.requestedStatus == "" then "ACTIVE" else step.req.requestedStatus))
  {
  }

  /** Approving again adds none. */
  lemma OneDiffPerApproval(db: Db, id: Id, req: Request)
    requires Update(db, id, req, false).outcome.Done?
    ensures Update(Update(db, id, req, false).db, id, req, false).db.diffs == Update(db, id, req, false).db.diffs
  {
  }

  /** The units of the diffs of this request on this allocation. */
  function Units(diffs: seq<Diff>, id: Id, allocation: Id): int {
    if diffs == [] then 0
    else
      var last := diffs[|diffs| - 1];
      Units(diffs[..|diffs| - 1], id, allocation) + if last.request == id && last.allocation == allocation then last.su else 0
  }

  /** The units a call approves for them. */
  function Approved(db: Db, step: Step, id: Id, allocation: Id): int {
    if Approves(db, step) && step.id == id
       && allocation == (if step.req.allocation == "" then db.requests[step.id].allocation else step.req.allocation)
    then step.req.su else 0
  }

  function ApprovedOver(db: Db, steps: seq<Step>, id: Id, allocation: Id): int
    decreases |steps|
  {
    if steps == [] then 0
    else Approved(db, steps[0], id, allocation) + ApprovedOver(Apply(db, steps[0]).db, steps[1..], id, allocation)
  }

  lemma StepAddsUnits(db: Db, step: Step, id: Id, allocation: Id)
    ensures Units(Apply(db, step).db.diffs, id, allocation) ==
      Units(db.diffs, id, allocation) + Approved(db, step, id, allocation)
  {
    ApprovalWrites(db, step);
    if Approves(db, step) { assert Apply(db, step).db.diffs[..|db.diffs|] == db.diffs; }
  }

  /** Over every run, the diffs of a request on an allocation add up to exactly the units approved for them. */
  lemma {:induction false} UnitsOverRun(db: Db, steps: seq<Step>, id: Id, allocation: Id)
    ensures Units(Run(db, steps).diffs, id, allocation) ==
      Units(db.diffs, id, allocation) + ApprovedOver(db, steps, id, allocation)
    decreases |steps|
  {
    if steps != [] {
      StepAddsUnits(db, steps[0], id, allocation);
      UnitsOverRun(Apply(db, steps[0]).db, steps[1..], id, allocation);
    }
  }

  /** A diff that failed to be written stays missing: the request is APPROVED by then, so repeating the call adds none. */
  lemma LostDiffStaysLost(db: Db, id: Id, req: Request)
    requires Update(db, id, req, true).outcome == Refused(Unrecorded)
    ensures var after := Update(db, id, req, true).db;
      && Stored(after, id) == Some(APPROVED) && after.diffs == db.diffs
      && Update(after, id, req, false).outcome.Done? && Update(after, id, req, false).db.diffs == db.diffs
  {
  }

  // ---------- The service ----------

  class Service {
    var allocations: set<Id>
    var requests: map<Id, Request>
    var events: seq<Event>
    var diffs: seq<Diff>

    ghost function Rows(): Db
      reads this
    {
      Db(allocations, requests, events, diffs)
    }

    constructor (known: set<Id>)
      ensures Rows() == Db(known, map[], [], []) && Agrees(Rows())
    {
      allocations, requests, events, diffs := known, map[], [], [];
    }

    method CreateChangeRequest(id: Id, given: Request, now: nat) returns (outcome: Outcome)
      modifies this`requests, this`events
      ensures Reply(Rows(), outcome) == Create(old(Rows()), id, given, now)
    {
      if given.allocation == "" || given.requester == "" || given.allocation !in allocations { return Refused(InvalidInput); }
      if id in requests { return Refused(Constraint); }
      var req := given;
      if req.changeStatus == "" { req := req.(changeStatus := PENDING); }
      if req.time == 0 { req := req.(time := now); }
      requests := requests[id := req];
      events := events + [Event(id, CREATED)];
      return Done;
    }

    method UpdateChangeRequest(id: Id, given: Request, diffFails: bool) returns (outcome: Outcome)
      modifies this`requests, this`events, this`diffs
      ensures Reply(Rows(), outcome) == Update(old(Rows()), id, given, diffFails)
      ensures var before, after := old(Rows()), Rows();
        if Approves(before, UpdateStep(id, given, diffFails))
        then
          && |after.diffs| == |before.diffs| + 1
          && after.diffs[|before.diffs|].request == id && after.diffs[|before.diffs|].su == given.su
        else after.diffs == before.diffs
    {
      if id == "" { return Refused(InvalidInput); }
      if id !in requests { return Refused(NotFound); }
      var existing := requests[id];
      var req := Filled(given, existing);
      if req.allocation !in allocations { return Refused(Constraint); }
      var moved := req.changeStatus != existing.changeStatus;
      requests := requests[id := req];
      events := events + [Event(id, if moved then req.changeStatus else UPDATED)];
      if moved && req.changeStatus == APPROVED {
        if diffFails { return Refused(Unrecorded); }
        diffs := diffs + [ApprovalDiff(id, req)];
      }
      return Done;
    }

    method DeleteChangeRequest(id: Id) returns (outcome: Outcome)
      modifies this`requests, this`events
      ensures Reply(Rows(), outcome) == Delete(old(Rows()), id)
    {
      if id == "" { return Refused(InvalidInput); }
      if id !in requests { return Refused(NotFound); }
      events := events + [Event(id, DELETED)];
      requests := requests - {id};
      return Done;
    }
  }
}
