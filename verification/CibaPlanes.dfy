/** The workspace plane of CIBA (database/workspace_device_repository.go:137-165) against the
    central one (database/ciba_auth_repository.go:245-277). */
module CibaPlanes {
  import opened Common
  import L = Lifecycle
  import opened Ciba

  type WorkspaceId = nat

  datatype TenantRequest = TenantRequest(workspace: WorkspaceId, request: Request)
  type TenantRequests = map<string, TenantRequest>

  predicate TenantMatches(rows: TenantRequests, id: string, workspace: WorkspaceId, from: L.Status) {
    id in rows && rows[id].workspace == workspace && rows[id].request.status == from
  }

  /** The columns the workspace plane writes: responded_at only for an answer. */
  function Rewritten(r: Request, to: L.Status, biometric: bool, now: int): Request {
    r.(status := to, biometricVerified := biometric,
       respondedAt := if to == L.Approved || to == L.Denied then Some(now) else r.respondedAt)
  }

  function TenantCas(rows: TenantRequests, id: string, workspace: WorkspaceId, from: L.Status, to: L.Status,
                     biometric: bool, now: int)
    : TenantRequests
  {
    if TenantMatches(rows, id, workspace, from)
    then rows[id := TenantRequest(workspace, Rewritten(rows[id].request, to, biometric, now))]
    else rows
  }

  class TenantDeviceRepository {
    var rows: TenantRequests

    method UpdateTenantCIBAAuthRequestStatusIf(
      id: string, workspace: WorkspaceId, from: L.Status, to: L.Status, approved: bool, biometric: bool, now: int)
      returns (won: bool)
      modifies this
      ensures won <==>
                id in old(rows) && old(rows)[id].workspace == workspace && old(rows)[id].request.status == from
      ensures rows == TenantCas(old(rows), id, workspace, from, to, biometric, now)
      ensures won ==>
                && var r := old(rows)[id].request; var answered := to == L.Approved || to == L.Denied;
                rows == old(rows)[id := TenantRequest(workspace, Request(to, biometric, r.expiresAt, r.createdAt,
                  if answered then Some(now) else r.respondedAt))]
      ensures !won ==> rows == old(rows)
    {
      won := id in rows && rows[id].workspace == workspace && rows[id].request.status == from;
      if won {
        var r := rows[id].request.(status := to, biometricVerified := biometric);
        if to == L.Approved || to == L.Denied {
          r := r.(respondedAt := Some(now));
        }
        rows := rows[id := rows[id].(request := r)];
      }
    }
  }

  // ---------- one abstract machine for both planes ----------

  /** What the services ask of either plane. */
  datatype Command =
    | Respond(id: string, approved: bool, biometric: bool, now: int)   // pending -> approved or denied
    | Claim(id: string, biometric: bool, now: int)                     // approved -> consumed
    | PutBack(id: string, biometric: bool, now: int)                   // consumed -> approved

  function From(c: Command): L.Status {
    match c
    case Respond(_, _, _, _) => L.Pending
    case Claim(_, _, _) => L.Approved
    case PutBack(_, _, _) => L.Consumed
  }

  function Central(rows: Requests, c: Command): Requests {
    match c
    case Respond(id, approved, biometric, now) => Cas(rows, id, L.Pending, Verdict(approved), biometric, now)
    case Claim(id, _, _) => Consume(rows, id)
    case PutBack(id, biometric, now) => Cas(rows, id, L.Consumed, L.Approved, biometric, now)
  }

  function Tenant(rows: TenantRequests, workspace: WorkspaceId, c: Command): TenantRequests {
    match c
    case Respond(id, approved, biometric, now) => TenantCas(rows, id, workspace, L.Pending, Verdict(approved),
      biometric, now)
    case Claim(id, biometric, now) => TenantCas(rows, id, workspace, L.Approved, L.Consumed, biometric, now)
    case PutBack(id, biometric, now) => TenantCas(rows, id, workspace, L.Consumed, L.Approved, biometric, now)
  }

  /** Who wins, command by command. */
  function CentralWins(rows: Requests, cs: seq<Command>): seq<bool>
    decreases |cs|
  {
    if cs == [] then [] else [Matches(rows, cs[0].id, From(cs[0]))] + CentralWins(Central(rows, cs[0]), cs[1..])
  }

  function TenantWins(rows: TenantRequests, workspace: WorkspaceId, cs: seq<Command>): seq<bool>
    decreases |cs|
  {
    if cs == [] then [] else
      [TenantMatches(rows, cs[0].id, workspace, From(cs[0]))]
        + TenantWins(Tenant(rows, workspace, cs[0]), workspace, cs[1..])
  }

  function CentralRun(rows: Requests, cs: seq<Command>): Requests
    decreases |cs|
  {
    if cs == [] then rows else CentralRun(Central(rows, cs[0]), cs[1..])
  }

  function TenantRun(rows: TenantRequests, workspace: WorkspaceId, cs: seq<Command>): TenantRequests
    decreases |cs|
  {
    if cs == [] then rows else TenantRun(Tenant(rows, workspace, cs[0]), workspace, cs[1..])
  }

  /** The central rows are the rows of one workspace, up to the biometric flag. */
  ghost predicate SamePlane(central: Requests, tenant: TenantRequests, workspace: WorkspaceId) {
    forall id :: SameRequest(central, tenant, workspace, id)
  }

  predicate SameRequest(central: Requests, tenant: TenantRequests, workspace: WorkspaceId, id: string) {
    if id in tenant && tenant[id].workspace == workspace
    then id in central && central[id].(biometricVerified := true) == tenant[id].request.(biometricVerified := true)
    else id !in central
  }

  /** A command wins exactly when it moves the request to another status; a loser changes nothing. */
  lemma WinnerMoves(rows: Requests, c: Command)
    ensures Matches(rows, c.id, From(c)) <==> c.id in rows && Central(rows, c)[c.id].status != rows[c.id].status
    ensures !Matches(rows, c.id, From(c)) ==> Central(rows, c) == rows
  {
  }

  lemma CommandKeepsPlane(central: Requests, tenant: TenantRequests, workspace: WorkspaceId, c: Command)
    requires SamePlane(central, tenant, workspace)
    ensures Matches(central, c.id, From(c)) == TenantMatches(tenant, c.id, workspace, From(c))
    ensures SamePlane(Central(central, c), Tenant(tenant, workspace, c), workspace)
  {
    assert SameRequest(central, tenant, workspace, c.id);
    forall id
      ensures SameRequest(Central(central, c), Tenant(tenant, workspace, c), workspace, id)
    {
      assert SameRequest(central, tenant, workspace, id);
    }
  }

  /** Both planes let the same callers win and leave the same status and responded_at, for every
      sequence of answers, claims and put-backs. */
  lemma {:induction false} PlanesAgree(central: Requests, tenant: TenantRequests, workspace: WorkspaceId,
                                       cs: seq<Command>)
    requires SamePlane(central, tenant, workspace)
    ensures CentralWins(central, cs) == TenantWins(tenant, workspace, cs)
    ensures SamePlane(CentralRun(central, cs), TenantRun(tenant, workspace, cs), workspace)
    decreases |cs|
  {
    if cs != [] {
      CommandKeepsPlane(central, tenant, workspace, cs[0]);
      PlanesAgree(Central(central, cs[0]), Tenant(tenant, workspace, cs[0]), workspace, cs[1..]);
    }
  }

  /** On other transitions the two conditional updates differ: when the caller wins, they
      write the same row exactly when it is an answer, or the row already carries that responded_at. */
  lemma CasAgreesIff(rows: Requests, workspace: WorkspaceId, id: string, from: L.Status, to: L.Status,
                     biometric: bool, now: int)
    requires Matches(rows, id, from)
    ensures var tenant := map k | k in rows :: TenantRequest(workspace, rows[k]);
            Cas(rows, id, from, to, biometric, now)[id]
              == TenantCas(tenant, id, workspace, from, to, biometric, now)[id].request
            <==> to == L.Approved || to == L.Denied || rows[id].respondedAt == Some(now)
  {
    var tenant := map k | k in rows :: TenantRequest(workspace, rows[k]);
    assert TenantMatches(tenant, id, workspace, from);
  }
}
