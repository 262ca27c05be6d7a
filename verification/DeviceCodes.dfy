/** Device authorization rows (database/device_auth_repository.go). */
module DeviceCodes {
  import opened Common
  import L = Lifecycle
  import U = UserCodes

  /** The columns AuthorizeDeviceCode writes: who authorised the device, and the token made for it. */
  datatype Grant = Grant(
    userId: Option<string>, userEmail: string, workspaceId: Option<string>, workspaceDomain: string,
    clientId: Option<string>, accessToken: string)

  datatype DeviceCode = DeviceCode(
    userCode: string, status: L.Status, grant: Grant, expiresAt: int, createdAt: int,
    lastPolledAt: Option<int>, authorizedAt: Option<int>)

  type Codes = map<string, DeviceCode>   // keyed by device_code

  // ---------- the statements on values ----------

  function SetStatus(rows: Codes, code: string, status: L.Status): Codes {
    if code in rows then rows[code := rows[code].(status := status)] else rows
  }

  predicate PollAccepted(rows: Codes, code: string, minInterval: int, now: int) {
    code in rows && (rows[code].lastPolledAt.None? || rows[code].lastPolledAt.value <= now - minInterval)
  }

  function Polled(rows: Codes, code: string, minInterval: int, now: int): Codes {
    if PollAccepted(rows, code, minInterval, now) then rows[code := rows[code].(lastPolledAt := Some(now))] else rows
  }

  predicate Decidable(row: DeviceCode, userCode: string) {
    U.Strip(row.userCode) == U.Strip(userCode) && row.status == L.Pending
  }

  function Decision(approve: bool): L.Status {
    if approve then L.Authorized else L.Denied
  }

  function DecideRows(rows: Codes, deciding: set<string>, grant: Grant, approve: bool, now: int): Codes {
    map code | code in rows ::
      if code in deciding && rows[code].status == L.Pending
      then rows[code].(grant := grant, status := Decision(approve), authorizedAt := Some(now))
      else rows[code]
  }

  /** The rows whose user code is the typed one, up to hyphens. */
  function Fitting(rows: Codes, userCode: string): set<string> {
    set code | code in rows && U.Strip(rows[code].userCode) == U.Strip(userCode)
  }

  function Decide(rows: Codes, userCode: string, grant: Grant, approve: bool, now: int): Codes {
    DecideRows(rows, Fitting(rows, userCode), grant, approve, now)
  }

  predicate Overdue(row: DeviceCode, now: int) {
    row.status == L.Pending && row.expiresAt < now
  }

  function ExpireOld(rows: Codes, now: int): Codes {
    map code | code in rows :: if Overdue(rows[code], now) then rows[code].(status := L.Expired) else rows[code]
  }

  predicate Finished(row: DeviceCode, cutoff: int) {
    row.status in {L.Expired, L.Consumed, L.Denied} && row.expiresAt < cutoff
  }

  function DeleteOld(rows: Codes, cutoff: int): Codes {
    map code | code in rows && !Finished(rows[code], cutoff) :: rows[code]
  }

  // ---------- the repository ----------

  /** The unique index on user_code. */
  predicate UniqueUserCodes(rows: Codes) {
    forall c1, c2 :: c1 in rows && c2 in rows && rows[c1].userCode == rows[c2].userCode ==> c1 == c2
  }

  predicate GeneratedUserCodes(rows: Codes) {
    forall code :: code in rows ==> U.WellFormed(rows[code].userCode)
  }

  class DeviceAuthRepository {
    var rows: Codes

    predicate Valid()
      reads this
    {
      UniqueUserCodes(rows) && GeneratedUserCodes(rows)
    }

    constructor ()
      ensures Valid() && rows == map[]
    {
      rows := map[];
    }

    /** Both unique indexes can refuse the row. */
    method CreateDeviceCode(code: string, userCode: string, grant: Grant, expiresAt: int, now: int) returns (ok: bool)
      modifies this
      ensures old(Valid()) && U.WellFormed(userCode) ==> Valid()
      ensures ok <==> code !in old(rows) && forall c :: c in old(rows) ==> old(rows)[c].userCode != userCode
      ensures rows == if ok then old(rows)[code := DeviceCode(userCode, L.Pending, grant, expiresAt, now, None, None)]
              else old(rows)
    {
      ok := code !in rows && forall c :: c in rows ==> rows[c].userCode != userCode;
      if ok {
        rows := rows[code := DeviceCode(userCode, L.Pending, grant, expiresAt, now, None, None)];
      }
    }

    /** Hyphens do not matter, and at most one row answers. */
    method FindByUserCode(userCode: string) returns (found: Option<string>)
      requires Valid()
      ensures found.Some? ==> found.value in rows
      ensures forall c :: c in rows ==> (U.Strip(rows[c].userCode) == U.Strip(userCode) <==> found == Some(c))
    {
      var hits := set c | c in rows && U.Strip(rows[c].userCode) == U.Strip(userCode);
      if hits == {} {
        assert forall c :: c in rows && U.Strip(rows[c].userCode) == U.Strip(userCode) ==> c in hits;
        return None;
      }
      var hit :| hit in hits;
      forall c | c in rows && U.Strip(rows[c].userCode) == U.Strip(userCode) ensures c == hit {
        LookupUnique(rows, userCode, c, hit);
      }
      return Some(hit);
    }

    /** tooSoon is true when the last poll was too recent, and also when there is no such row. */
    method UpdateLastPolled(code: string, minInterval: int, now: int) returns (tooSoon: bool)
      modifies this
      ensures tooSoon <==> !PollAccepted(old(rows), code, minInterval, now)
      ensures rows == Polled(old(rows), code, minInterval, now)
      ensures !tooSoon <==>
                && code in old(rows)
                && (old(rows)[code].lastPolledAt == None || old(rows)[code].lastPolledAt.value + minInterval <= now)
      ensures rows == if tooSoon then old(rows) else old(rows)[code := old(rows)[code].(lastPolledAt := Some(now))]
      ensures old(Valid()) ==> Valid()
    {
      var cutoff := now - minInterval;
      tooSoon := true;
      if code in rows && (rows[code].lastPolledAt.None? || rows[code].lastPolledAt.value <= cutoff) {
        rows := rows[code := rows[code].(lastPolledAt := Some(now))];
        tooSoon := false;
      }
    }

    /** Decides the pending row that fits; with unique generated codes there is at most one. */
    method AuthorizeDeviceCode(userCode: string, grant: Grant, approve: bool, now: int) returns (ok: bool)
      modifies this
      ensures ok <==> exists c :: c in old(rows) && Decidable(old(rows)[c], userCode)
      ensures rows.Keys == old(rows).Keys && forall c :: c in rows ==>
                if U.Strip(old(rows)[c].userCode) == U.Strip(userCode) && old(rows)[c].status == L.Pending
                then rows[c] == old(rows)[c].(grant := grant, authorizedAt := Some(now),
                       status := if approve then L.Authorized else L.Denied)
                else rows[c] == old(rows)[c]
      ensures rows == Decide(old(rows), userCode, grant, approve, now)
      ensures old(Valid()) ==> Valid()
      ensures !ok ==> rows == old(rows)
      ensures ok && old(Valid()) ==> exists c :: OneRowDecided(old(rows), rows, c, userCode, grant, approve, now)
    {
      ghost var before, valid := rows, Valid();
      var hits := set c | c in rows && Decidable(rows[c], userCode);
      assert forall c :: c in rows && Decidable(rows[c], userCode) ==> c in hits;
      rows := Decide(rows, userCode, grant, approve, now);
      ok := hits != {};
      Decided(before, userCode, grant, approve, now, valid, hits);
    }

    method UpdateStatus(code: string, status: L.Status)
      modifies this
      ensures rows == SetStatus(old(rows), code, status)
      ensures old(Valid()) ==> Valid()
    {
      if code in rows {
        rows := rows[code := rows[code].(status := status)];
      }
    }

    method ExpireOldDeviceCodes(now: int) returns (rowsAffected: nat)
      modifies this
      ensures rows == ExpireOld(old(rows), now)
      ensures rowsAffected == |set c | c in old(rows) && Overdue(old(rows)[c], now)|
      ensures rows.Keys == old(rows).Keys && forall c :: c in rows ==>
                rows[c] == if old(rows)[c].status == L.Pending && old(rows)[c].expiresAt < now
                           then old(rows)[c].(status := L.Expired) else old(rows)[c]
      ensures old(Valid()) ==> Valid()
    {
      var hits := set c | c in rows && Overdue(rows[c], now);
      rows := map c | c in rows :: if c in hits then rows[c].(status := L.Expired) else rows[c];
      rowsAffected := |hits|;
    }

    method DeleteExpiredDeviceCodes(olderThan: int, now: int) returns (rowsAffected: nat)
      modifies this
      ensures rows == DeleteOld(old(rows), now - olderThan)
      ensures |old(rows)| == |rows| + rowsAffected
      ensures forall c :: c in rows <==>
                && c in old(rows)
                && !(old(rows)[c].status in {L.Expired, L.Consumed, L.Denied}
                     && old(rows)[c].expiresAt < now - olderThan)
      ensures forall c :: c in rows ==> rows[c] == old(rows)[c]
      ensures old(Valid()) ==> Valid()
    {
      var hits := set c | c in rows && Finished(rows[c], now - olderThan);
      assert rows.Keys == DeleteOld(rows, now - olderThan).Keys + hits;
      rows := rows - hits;
      rowsAffected := |hits|;
    }
  }

  /** With unique generated codes, a typed code, with or without its hyphen, fits at most one row. */
  lemma LookupUnique(rows: Codes, userCode: string, c1: string, c2: string)
    requires UniqueUserCodes(rows) && GeneratedUserCodes(rows) && c1 in rows && c2 in rows
    requires U.Strip(rows[c1].userCode) == U.Strip(userCode) == U.Strip(rows[c2].userCode)
    ensures c1 == c2
  {
    U.StripInjective(rows[c1].userCode, rows[c2].userCode);
  }

  /** Only row `c` differs, and it carries the decision. */
  predicate OneRowDecided(before: Codes, rows: Codes, c: string, userCode: string, grant: Grant, approve: bool,
                          now: int) {
    && c in before && Decidable(before[c], userCode)
    && rows == before[c := before[c].(
         grant := grant, status := if approve then L.Authorized else L.Denied, authorizedAt := Some(now))]
  }

  /** The update over all fitting rows is the update of the one fitting row. */
  lemma DecidesOneRow(rows: Codes, userCode: string, grant: Grant, approve: bool, now: int, c: string)
    requires UniqueUserCodes(rows) && GeneratedUserCodes(rows) && c in rows && Decidable(rows[c], userCode)
    ensures OneRowDecided(rows, Decide(rows, userCode, grant, approve, now), c, userCode, grant, approve, now)
  {
    forall d | d in rows && Decidable(rows[d], userCode) ensures d == c { LookupUnique(rows, userCode, c, d); }
    OnlyRowDecided(rows, userCode, grant, approve, now, c);
  }

  lemma Decided(rows: Codes, userCode: string, grant: Grant, approve: bool, now: int, valid: bool, hits: set<string>)
    requires valid ==> UniqueUserCodes(rows) && GeneratedUserCodes(rows)
    requires forall c :: c in hits ==> c in rows && Decidable(rows[c], userCode)
    ensures var after := Decide(rows, userCode, grant, approve, now);
            && (valid ==> UniqueUserCodes(after) && GeneratedUserCodes(after))
            && (valid && hits != {} ==> exists c :: OneRowDecided(rows, after, c, userCode, grant, approve, now))
  {
    if valid {
      DecideKeepsCodes(rows, userCode, grant, approve, now);
      if c :| c in hits {
        DecidesOneRow(rows, userCode, grant, approve, now, c);
      }
    }
  }

  lemma DecideKeepsCodes(rows: Codes, userCode: string, grant: Grant, approve: bool, now: int)
    requires UniqueUserCodes(rows) && GeneratedUserCodes(rows)
    ensures UniqueUserCodes(Decide(rows, userCode, grant, approve, now))
            && GeneratedUserCodes(Decide(rows, userCode, grant, approve, now))
  {
  }

  lemma OnlyRowDecided(rows: Codes, userCode: string, grant: Grant, approve: bool, now: int, c: string)
    requires c in rows && Decidable(rows[c], userCode)
    requires forall d :: d in rows && Decidable(rows[d], userCode) ==> d == c
    ensures OneRowDecided(rows, Decide(rows, userCode, grant, approve, now), c, userCode, grant, approve, now)
  {
  }

  // ---------- expiry sweeps are invisible to readers ----------

  datatype TableOp =
    | OpInsert(code: string, row: DeviceCode)
    | OpSetStatus(code: string, status: L.Status)
    | OpPoll(code: string, minInterval: int, now: int)
    | OpDecide(deciding: set<string>, grant: Grant, approve: bool, now: int)   // the rows whose user code fits
    | OpExpire(now: int)
    | OpDelete(cutoff: int)
    | OpRead(code: string, now: int)

  function After(rows: Codes, op: TableOp): Codes {
    match op
    case OpInsert(code, row) => rows[code := row]
    case OpSetStatus(code, status) => SetStatus(rows, code, status)
    case OpPoll(code, minInterval, now) => Polled(rows, code, minInterval, now)
    case OpDecide(deciding, grant, approve, now) => DecideRows(rows, deciding, grant, approve, now)
    case OpExpire(now) => ExpireOld(rows, now)
    case OpDelete(cutoff) => DeleteOld(rows, cutoff)
    case OpRead(_, _) => rows
  }

  function ViewRow(r: DeviceCode): L.Row {
    L.Row(r.status, r.expiresAt, r.createdAt)
  }

  function View(rows: Codes): L.Rows {
    map code | code in rows :: ViewRow(rows[code])
  }

  function Lift(op: TableOp): L.Op {
    match op
    case OpInsert(code, row) => L.Insert(code, ViewRow(row))
    case OpSetStatus(code, status) => L.Move((k, r: L.Row) => if k == code then status else r.status)
    case OpPoll(_, _, _) => L.Move((k, r: L.Row) => r.status)
    case OpDecide(deciding, _, approve, _) =>
      L.Move((k, r: L.Row) => if k in deciding && r.status == L.Pending then Decision(approve) else r.status)
    case OpExpire(now) => L.Sweep(now)
    case OpDelete(cutoff) => L.Purge((k, r: L.Row) => r.status in {L.Expired, L.Consumed, L.Denied}
      && r.expiresAt < cutoff)
    case OpRead(code, now) => L.Ask(code, now)
  }

  lemma StepView(rows: Codes, op: TableOp)
    ensures View(After(rows, op)) == L.Apply(View(rows), Lift(op))
  {
    var a, b := View(After(rows, op)), L.Apply(View(rows), Lift(op));
    assert a.Keys == b.Keys;
    assert forall code :: code in a ==> a[code] == b[code];
  }

  /** ExpireOldDeviceCodes changes no later IsPending, whatever else happens to the table. */
  lemma ExpirySweepsInvisible(rows: Codes, ops: seq<TableOp>, clock: int)
    requires L.ClockOk(L.Lifted(Lift, ops), clock)
    ensures L.Observed(View, After, Lift, rows, ops) == L.Observed(View, After, Lift, rows, L.Unswept(Lift, ops))
  {
    forall s, o ensures View(After(s, o)) == L.Apply(View(s), Lift(o)) {
      StepView(s, o);
    }
    L.TableTransparent(View, After, Lift, rows, ops, clock);
  }
}
