/** CIBA authentication requests (database/ciba_auth_repository.go, with the respond and poll
    flows of services/ciba_auth_service.go): first responder wins, at most one token. */
module Ciba {
  import opened Common
  import L = Lifecycle

  datatype Request = Request(
    status: L.Status, biometricVerified: bool, expiresAt: int, createdAt: int, respondedAt: Option<int>)
  type Requests = map<string, Request>

  // ---------- the statements on values ----------

  /** UPDATE ... WHERE auth_req_id = id AND status = from: does a row match? */
  predicate Matches(rows: Requests, id: string, from: L.Status) {
    id in rows && rows[id].status == from
  }

  function Cas(rows: Requests, id: string, from: L.Status, to: L.Status, biometric: bool, now: int): Requests {
    if Matches(rows, id, from)
    then rows[id := rows[id].(status := to, biometricVerified := biometric, respondedAt := Some(now))]
    else rows
  }

  function Consume(rows: Requests, id: string): Requests {
    if Matches(rows, id, L.Approved) then rows[id := rows[id].(status := L.Consumed)] else rows
  }

  predicate Overdue(row: Request, now: int) {
    row.expiresAt < now && row.status == L.Pending
  }

  function ExpireOld(rows: Requests, now: int): Requests {
    map id | id in rows :: if Overdue(rows[id], now) then rows[id].(status := L.Expired) else rows[id]
  }

  predicate Finished(row: Request, cutoff: int) {
    row.createdAt < cutoff && row.status in {L.Expired, L.Consumed, L.Denied}
  }

  function DeleteOld(rows: Requests, cutoff: int): Requests {
    map id | id in rows && !Finished(rows[id], cutoff) :: rows[id]
  }

  /** The status an answer moves the request to. */
  function Verdict(approved: bool): L.Status {
    if approved then L.Approved else L.Denied
  }

  // ---------- the repository ----------

  class CIBAAuthRepository {
    var rows: Requests

    constructor ()
      ensures rows == map[]
    {
      rows := map[];
    }

    /** The unique index on auth_req_id refuses a second row. */
    method CreateCIBAAuthRequest(id: string, expiresAt: int, now: int) returns (ok: bool)
      modifies this
      ensures ok <==> id !in old(rows)
      ensures rows == if ok then old(rows)[id := Request(L.Pending, false, expiresAt, now, None)] else old(rows)
    {
      ok := id !in rows;
      if ok {
        rows := rows[id := Request(L.Pending, false, expiresAt, now, None)];
      }
    }

    method UpdateCIBAAuthRequestStatusIf(id: string, from: L.Status, to: L.Status, biometric: bool, now: int)
      returns (won: bool)
      modifies this
      ensures won <==> id in old(rows) && old(rows)[id].status == from
      ensures rows == Cas(old(rows), id, from, to, biometric, now)
      ensures won ==>
                var r := old(rows)[id];
                rows == old(rows)[id := Request(to, biometric, r.expiresAt, r.createdAt, Some(now))]
      ensures !won ==> rows == old(rows)
    {
      won := false;
      if id in rows && rows[id].status == from {
        rows := rows[id := Request(to, biometric, rows[id].expiresAt, rows[id].createdAt, Some(now))];
        won := true;
      }
    }

    method MarkAsConsumedIf(id: string) returns (won: bool)
      modifies this
      ensures won <==> id in old(rows) && old(rows)[id].status == L.Approved
      ensures rows == Consume(old(rows), id)
      ensures won ==> rows == old(rows)[id := old(rows)[id].(status := L.Consumed)]
      ensures !won ==> rows == old(rows)
    {
      won := false;
      if id in rows && rows[id].status == L.Approved {
        rows := rows[id := rows[id].(status := L.Consumed)];
        won := true;
      }
    }

    method ExpireOldRequests(now: int) returns (rowsAffected: nat)
      modifies this
      ensures rows == ExpireOld(old(rows), now)
      ensures rowsAffected == |set id | id in old(rows) && Overdue(old(rows)[id], now)|
      ensures rows.Keys == old(rows).Keys && forall id :: id in rows ==>
                rows[id] == if old(rows)[id].status == L.Pending && old(rows)[id].expiresAt < now
                            then old(rows)[id].(status := L.Expired) else old(rows)[id]
    {
      var hit := set id | id in rows && Overdue(rows[id], now);
      rows := map id | id in rows :: if id in hit then rows[id].(status := L.Expired) else rows[id];
      rowsAffected := |hit|;
    }

    method DeleteExpiredRequests(olderThan: int, now: int) returns (rowsAffected: nat)
      modifies this
      ensures rows == DeleteOld(old(rows), now - olderThan)
      ensures rowsAffected == |set id | id in old(rows) && Finished(old(rows)[id], now - olderThan)|
      ensures |old(rows)| == |rows| + rowsAffected
      ensures forall id :: id in rows <==>
                && id in old(rows)
                && !(old(rows)[id].status in {L.Expired, L.Consumed, L.Denied}
                     && old(rows)[id].createdAt < now - olderThan)
      ensures forall id :: id in rows ==> rows[id] == old(rows)[id]
    {
      var hit := set id | id in rows && Finished(rows[id], now - olderThan);
      assert rows.Keys == DeleteOld(rows, now - olderThan).Keys + hit;
      rows := rows - hit;
      rowsAffected := |hit|;
    }
  }

  // ---------- expiry sweeps are invisible to readers ----------

  datatype TableOp =
    | OpInsert(id: string, row: Request)
    | OpCas(id: string, from: L.Status, to: L.Status, biometric: bool, now: int)
    | OpConsume(id: string)
    | OpExpire(now: int)
    | OpDelete(cutoff: int)
    | OpRead(id: string, now: int)

  function After(rows: Requests, op: TableOp): Requests {
    match op
    case OpInsert(id, row) => rows[id := row]
    case OpCas(id, from, to, biometric, now) => Cas(rows, id, from, to, biometric, now)
    case OpConsume(id) => Consume(rows, id)
    case OpExpire(now) => ExpireOld(rows, now)
    case OpDelete(cutoff) => DeleteOld(rows, cutoff)
    case OpRead(_, _) => rows
  }

  function ViewRow(r: Request): L.Row {
    L.Row(r.status, r.expiresAt, r.createdAt)
  }

  function View(rows: Requests): L.Rows {
    map id | id in rows :: ViewRow(rows[id])
  }

  function Lift(op: TableOp): L.Op {
    match op
    case OpInsert(id, row) => L.Insert(id, ViewRow(row))
    case OpCas(id, from, to, _, _) => L.Move((k, r: L.Row) => if k == id && r.status == from then to else r.status)
    case OpConsume(id) => L.Move((k, r: L.Row) => if k == id && r.status == L.Approved then L.Consumed else r.status)
    case OpExpire(now) => L.Sweep(now)
    case OpDelete(cutoff) => L.Purge((k, r: L.Row) => r.createdAt < cutoff
      && r.status in {L.Expired, L.Consumed, L.Denied})
    case OpRead(id, now) => L.Ask(id, now)
  }

  /** Whatever responders, pollers and deletions do in between, ExpireOldRequests changes no later IsPending. */
  lemma ExpirySweepsInvisible(rows: Requests, ops: seq<TableOp>, clock: int)
    requires L.ClockOk(L.Lifted(Lift, ops), clock)
    ensures L.Observed(View, After, Lift, rows, ops) == L.Observed(View, After, Lift, rows, L.Unswept(Lift, ops))
  {
    forall s, o ensures View(After(s, o)) == L.Apply(View(s), Lift(o)) {
      StepView(s, o);
    }
    L.TableTransparent(View, After, Lift, rows, ops, clock);
  }

  lemma StepView(rows: Requests, op: TableOp)
    ensures View(After(rows, op)) == L.Apply(View(rows), Lift(op))
  {
    var a, b := View(After(rows, op)), L.Apply(View(rows), Lift(op));
    assert a.Keys == b.Keys;
    assert forall id :: id in a ==> a[id] == b[id];
  }
}
