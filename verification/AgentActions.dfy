/** Agent action requests and their approvers' decisions (database/agent_action_repository.go:486-603). */
module AgentActions {
  import opened Common
  import L = Lifecycle

  datatype ActionRequest = ActionRequest(
    status: L.Status, requiredApprovals: int, expiresAt: int, createdAt: int, decidedAt: Option<int>)
  type Requests = map<string, ActionRequest>

  datatype Ballot = Ballot(request: string, approver: string)
  type Decisions = map<Ballot, bool>   // approved or denied; one row per request and approver

  // ---------- the statements on values ----------

  function SetStatus(rows: Requests, id: string, status: L.Status, now: int): Requests {
    if id in rows then rows[id := rows[id].(status := status, decidedAt := Some(now))] else rows
  }

  predicate Overdue(row: ActionRequest, now: int) {
    row.expiresAt < now && row.status == L.Pending
  }

  function ExpireOld(rows: Requests, now: int): Requests {
    map id | id in rows :: if Overdue(rows[id], now) then rows[id].(status := L.Expired, decidedAt := Some(now))
      else rows[id]
  }

  /** INSERT ... ON CONFLICT DO NOTHING */
  function Vote(decisions: Decisions, ballot: Ballot, approved: bool): Decisions {
    if ballot in decisions then decisions else decisions[ballot := approved]
  }

  /** COUNT(DISTINCT approver) over the approving decisions. */
  function Approvers(decisions: Decisions, request: string): set<string> {
    set b | b in decisions && b.request == request && decisions[b] :: b.approver
  }

  // ---------- the repository ----------

  class AgentActionRepository {
    var rows: Requests
    var decisions: Decisions

    constructor ()
      ensures rows == map[] && decisions == map[]
    {
      rows, decisions := map[], map[];
    }

    method UpdateActionRequestStatus(id: string, status: L.Status, now: int)
      modifies this
      ensures rows == SetStatus(old(rows), id, status, now) && decisions == old(decisions)
      ensures id in old(rows) ==> rows == old(rows)[id := old(rows)[id].(status := status, decidedAt := Some(now))]
      ensures id !in old(rows) ==> rows == old(rows)
    {
      if id in rows {
        rows := rows[id := rows[id].(status := status, decidedAt := Some(now))];
      }
    }

    method ExpireOldActionRequests(now: int) returns (rowsAffected: nat)
      modifies this
      ensures rows == ExpireOld(old(rows), now) && decisions == old(decisions)
      ensures rowsAffected == |set id | id in old(rows) && Overdue(old(rows)[id], now)|
      ensures rows.Keys == old(rows).Keys && forall id :: id in rows ==>
                rows[id] == if old(rows)[id].status == L.Pending && old(rows)[id].expiresAt < now
                            then old(rows)[id].(status := L.Expired, decidedAt := Some(now)) else old(rows)[id]
    {
      var hits := set id | id in rows && Overdue(rows[id], now);
      rows := map id | id in rows :: if id in hits then rows[id].(status := L.Expired, decidedAt := Some(now))
        else rows[id];
      rowsAffected := |hits|;
    }

    /** True when the vote was recorded, false when this approver had already voted. */
    method CreateDecision(request: string, approver: string, approved: bool) returns (inserted: bool)
      modifies this
      ensures inserted <==> Ballot(request, approver) !in old(decisions)
      ensures inserted ==> decisions == old(decisions)[Ballot(request, approver) := approved]
      ensures !inserted ==> decisions == old(decisions)
      ensures decisions == Vote(old(decisions), Ballot(request, approver), approved) && rows == old(rows)
    {
      inserted := Ballot(request, approver) !in decisions;
      if inserted {
        decisions := decisions[Ballot(request, approver) := approved];
      }
    }

    /** None when there is no such request. */
    method CountDistinctApprovers(request: string) returns (counts: Option<(nat, int)>)
      ensures counts.None? <==> request !in rows
      ensures counts.Some? ==> counts.value == (|Approvers(decisions, request)|, rows[request].requiredApprovals)
    {
      if request !in rows {
        return None;
      }
      var received := set b | b in decisions && b.request == request && decisions[b] :: b.approver;
      return Some((|received|, rows[request].requiredApprovals));
    }
  }

  // ---------- expiry sweeps are invisible to readers ----------

  datatype TableOp =
    | OpInsert(id: string, row: ActionRequest)
    | OpSetStatus(id: string, status: L.Status, now: int)
    | OpExpire(now: int)
    | OpRead(id: string, now: int)

  function After(rows: Requests, op: TableOp): Requests {
    match op
    case OpInsert(id, row) => rows[id := row]
    case OpSetStatus(id, status, now) => SetStatus(rows, id, status, now)
    case OpExpire(now) => ExpireOld(rows, now)
    case OpRead(_, _) => rows
  }

  function ViewRow(r: ActionRequest): L.Row {
    L.Row(r.status, r.expiresAt, r.createdAt)
  }

  function View(rows: Requests): L.Rows {
    map id | id in rows :: ViewRow(rows[id])
  }

  function Lift(op: TableOp): L.Op {
    match op
    case OpInsert(id, row) => L.Insert(id, ViewRow(row))
    case OpSetStatus(id, status, _) => L.Move((k, r: L.Row) => if k == id then status else r.status)
    case OpExpire(now) => L.Sweep(now)
    case OpRead(id, now) => L.Ask(id, now)
  }

  lemma StepView(rows: Requests, op: TableOp)
    ensures View(After(rows, op)) == L.Apply(View(rows), Lift(op))
  {
    var a, b := View(After(rows, op)), L.Apply(View(rows), Lift(op));
    assert a.Keys == b.Keys;
    assert forall id :: id in a ==> a[id] == b[id];
  }

  /** ExpireOldActionRequests changes no later IsPending. */
  lemma ExpirySweepsInvisible(rows: Requests, ops: seq<TableOp>, clock: int)
    requires L.ClockOk(L.Lifted(Lift, ops), clock)
    ensures L.Observed(View, After, Lift, rows, ops) == L.Observed(View, After, Lift, rows, L.Unswept(Lift, ops))
  {
    forall s, o ensures View(After(s, o)) == L.Apply(View(s), Lift(o)) {
      StepView(s, o);
    }
    L.TableTransparent(View, After, Lift, rows, ops, clock);
  }
}
