/** Voice sessions: listing, revocation and sweeps (database/voice_auth_repository.go:584-767). */
module VoiceSessions {
  import opened Common

  datatype Session = Session(
    workspace: string, user: string, loginAt: int, expiresAt: int,
    isActive: bool, revokedAt: Option<int>, revokedReason: string, lastActivityAt: int)
  type Sessions = map<string, Session>

  // ---------- the statements on values ----------

  function Revoked(s: Session, reason: string, now: int): Session {
    s.(isActive := false, revokedAt := Some(now), revokedReason := reason)
  }

  function RevokeOne(rows: Sessions, id: string, reason: string, now: int): Sessions {
    if id in rows && rows[id].isActive then rows[id := Revoked(rows[id], reason, now)] else rows
  }

  predicate RevokedByAll(s: Session, id: string, workspace: string, user: string, except: string) {
    s.workspace == workspace && s.user == user && s.isActive && id != except
  }

  function RevokeAll(rows: Sessions, workspace: string, user: string, reason: string, except: string, now: int):
                     Sessions {
    map id | id in rows ::
      if RevokedByAll(rows[id], id, workspace, user, except) then Revoked(rows[id], reason, now) else rows[id]
  }

  function Touch(rows: Sessions, id: string, now: int): Sessions {
    if id in rows && rows[id].isActive then rows[id := rows[id].(lastActivityAt := now)] else rows
  }

  predicate Lapsed(s: Session, now: int) {
    s.isActive && s.expiresAt < now
  }

  function Cleanup(rows: Sessions, now: int): Sessions {
    map id | id in rows :: if Lapsed(rows[id], now) then Revoked(rows[id], "expired", now) else rows[id]
  }

  /** A NULL revoked_at is not below any cutoff. */
  predicate Old(s: Session, cutoff: int) {
    !s.isActive && s.revokedAt.Some? && s.revokedAt.value < cutoff
  }

  function DeleteOld(rows: Sessions, cutoff: int): Sessions {
    map id | id in rows && !Old(rows[id], cutoff) :: rows[id]
  }

  /** A missing session counts as revoked. */
  predicate IsRevoked(rows: Sessions, id: string, now: int) {
    id !in rows || !rows[id].isActive || now > rows[id].expiresAt
  }

  predicate Listed(s: Session, workspace: string, user: string, now: int) {
    s.workspace == workspace && s.user == user && s.isActive && s.expiresAt > now
  }

  function ActiveSet(rows: Sessions, workspace: string, user: string, now: int): set<string> {
    set id | id in rows && Listed(rows[id], workspace, user, now)
  }

  /** `list` names exactly the active sessions, each once. */
  ghost predicate Lists(rows: Sessions, list: seq<string>, workspace: string, user: string, now: int) {
    && (forall id :: id in list <==> id in ActiveSet(rows, workspace, user, now))
    && forall i, j :: 0 <= i < j < |list| ==> list[i] != list[j]
  }

  lemma {:induction false} ListLength(list: seq<string>, ids: set<string>)
    requires forall id :: id in list <==> id in ids
    requires forall i, j :: 0 <= i < j < |list| ==> list[i] != list[j]
    ensures |list| == |ids|
  {
    if list == [] {
      assert ids == {} by { assert forall id :: id in ids ==> id in list; }
    } else {
      var init, last := list[..|list| - 1], list[|list| - 1];
      assert list == init + [last];
      ListLength(init, ids - {last});
    }
  }

  // ---------- the repository ----------

  class VoiceAuthRepository {
    var rows: Sessions

    constructor ()
      ensures rows == map[]
    {
      rows := map[];
    }

    method RevokeVoiceActiveSession(id: string, reason: string, now: int) returns (ok: bool)
      modifies this
      ensures ok <==> id in old(rows) && old(rows)[id].isActive
      ensures rows == RevokeOne(old(rows), id, reason, now)
      ensures ok ==> rows == old(rows)[id := old(rows)[id].(
                isActive := false, revokedAt := Some(now), revokedReason := reason)]
      ensures !ok ==> rows == old(rows)
    {
      ok := id in rows && rows[id].isActive;
      if ok {
        rows := rows[id := rows[id].(isActive := false, revokedAt := Some(now), revokedReason := reason)];
      }
    }

    method RevokeAllVoiceActiveSessions(workspace: string, user: string, reason: string, except: string, now: int)
      returns (rowsAffected: nat)
      modifies this
      ensures rows == RevokeAll(old(rows), workspace, user, reason, except, now)
      ensures rowsAffected == |set id | id in old(rows) && RevokedByAll(old(rows)[id], id, workspace, user, except)|
      ensures rows.Keys == old(rows).Keys && forall id :: id in rows ==>
                var s := old(rows)[id];
                if s.workspace == workspace && s.user == user && s.isActive && id != except
                then rows[id] == s.(isActive := false, revokedAt := Some(now), revokedReason := reason)
                else rows[id] == s
    {
      var hits := set id | id in rows && RevokedByAll(rows[id], id, workspace, user, except);
      rows := map id | id in rows :: if id in hits then Revoked(rows[id], reason, now) else rows[id];
      rowsAffected := |hits|;
    }

    method CleanupExpiredVoiceActiveSessions(now: int) returns (rowsAffected: nat)
      modifies this
      ensures rows == Cleanup(old(rows), now)
      ensures rowsAffected == |set id | id in old(rows) && Lapsed(old(rows)[id], now)|
      ensures rows.Keys == old(rows).Keys && forall id :: id in rows ==>
                var s := old(rows)[id];
                if s.isActive && s.expiresAt < now
                then rows[id] == s.(isActive := false, revokedAt := Some(now), revokedReason := "expired")
                else rows[id] == s
    {
      var hits := set id | id in rows && Lapsed(rows[id], now);
      rows := map id | id in rows :: if id in hits then Revoked(rows[id], "expired", now) else rows[id];
      rowsAffected := |hits|;
    }

    method DeleteOldVoiceActiveSessions(olderThan: int, now: int) returns (rowsAffected: nat)
      modifies this
      ensures rows == DeleteOld(old(rows), now - olderThan)
      ensures |old(rows)| == |rows| + rowsAffected
      ensures forall id :: id in rows <==>
                id in old(rows) && (old(rows)[id].isActive || old(rows)[id].revokedAt == None
                  || now - olderThan <= old(rows)[id].revokedAt.value)
      ensures forall id :: id in rows ==> rows[id] == old(rows)[id]
    {
      var hits := set id | id in rows && Old(rows[id], now - olderThan);
      assert rows.Keys == DeleteOld(rows, now - olderThan).Keys + hits;
      rows := rows - hits;
      rowsAffected := |hits|;
    }

    method UpdateVoiceActiveSessionActivity(id: string, now: int)
      modifies this
      ensures rows == Touch(old(rows), id, now)
      ensures rows.Keys == old(rows).Keys && forall i :: i in rows ==>
                if i == id && old(rows)[i].isActive then rows[i] == old(rows)[i].(lastActivityAt := now)
                else rows[i] == old(rows)[i]
    {
      rows := Touch(rows, id, now);
    }

    /** A session is live until and including the second of its expiry. */
    method IsSessionRevoked(id: string, now: int) returns (revoked: bool)
      ensures revoked == IsRevoked(rows, id, now)
      ensures !revoked <==> id in rows && rows[id].isActive && now <= rows[id].expiresAt
    {
      if id !in rows {
        return true;
      }
      return !rows[id].isActive || now > rows[id].expiresAt;
    }

    /** The length of every listing of the active sessions that names each once. */
    method CountActiveSessionsForUser(workspace: string, user: string, now: int) returns (count: nat)
      ensures count == |ActiveSet(rows, workspace, user, now)|
      ensures forall list: seq<string> :: Lists(rows, list, workspace, user, now) ==> |list| == count
    {
      forall list: seq<string> | Lists(rows, list, workspace, user, now)
        ensures |list| == |ActiveSet(rows, workspace, user, now)|
      {
        ListLength(list, ActiveSet(rows, workspace, user, now));
      }
      count := |ActiveSet(rows, workspace, user, now)|;
    }

    /** Exactly the active sessions, each once, latest login first; as many as CountActiveSessionsForUser says. */
    method ListActiveVoiceSessions(workspace: string, user: string, now: int) returns (list: seq<string>)
      ensures Lists(rows, list, workspace, user, now) && forall i :: 0 <= i < |list| ==> list[i] in rows
      ensures forall i, j :: 0 <= i < j < |list| ==> rows[list[i]].loginAt >= rows[list[j]].loginAt
      ensures |list| == |ActiveSet(rows, workspace, user, now)|
      ensures forall id :: id in list <==>
                && id in rows && rows[id].workspace == workspace && rows[id].user == user
                && rows[id].isActive && now < rows[id].expiresAt
    {
      list := [];
      var active := ActiveSet(rows, workspace, user, now);
      var todo := active;
      while todo != {}
        invariant todo <= active && forall id :: id in list <==> id in active && id !in todo
        invariant forall i :: 0 <= i < |list| ==> list[i] in rows
        invariant forall i, j :: 0 <= i < j < |list| ==> list[i] != list[j]
        invariant forall i, j :: 0 <= i < j < |list| ==> rows[list[i]].loginAt >= rows[list[j]].loginAt
        invariant forall i, id :: 0 <= i < |list| && id in todo ==> rows[list[i]].loginAt >= rows[id].loginAt
        invariant |list| + |todo| == |active|
      {
        var latest := Latest(todo);
        list := list + [latest];
        todo := todo - {latest};
      }
    }

    method Latest(ids: set<string>) returns (latest: string)
      requires ids != {} && ids <= rows.Keys
      ensures latest in ids && forall id :: id in ids ==> rows[id].loginAt <= rows[latest].loginAt
    {
      latest :| latest in ids;
      var todo := ids - {latest};
      while todo != {}
        invariant todo <= ids && latest in ids
        invariant forall id :: id in ids && id !in todo ==> rows[id].loginAt <= rows[latest].loginAt
      {
        var id :| id in todo;
        if rows[latest].loginAt < rows[id].loginAt {
          latest := id;
        }
        todo := todo - {id};
      }
    }
  }

  /** A listed session is never a revoked one; a session of the user that is not revoked is missing from
      the list in just one second, the one in which it expires. */
  lemma ListedIffNotRevoked(rows: Sessions, id: string, now: int)
    requires id in rows
    ensures Listed(rows[id], rows[id].workspace, rows[id].user, now)
            <==> !IsRevoked(rows, id, now) && now != rows[id].expiresAt
    ensures rows[id].isActive && now == rows[id].expiresAt ==> !IsRevoked(rows, id, now)
  {
  }

  // ---------- whole runs ----------

  datatype Op =
    | OpCreate(id: string, session: Session)
    | OpRevoke(id: string, reason: string, now: int)
    | OpRevokeAll(workspace: string, user: string, reason: string, except: string, now: int)
    | OpTouch(id: string, now: int)
    | OpCleanup(now: int)
    | OpDelete(olderThan: int, now: int)
    | OpAsk(id: string, now: int)     // IsSessionRevoked

  function Apply(rows: Sessions, op: Op): Sessions {
    match op
    case OpCreate(id, session) => rows[id := session]
    case OpRevoke(id, reason, now) => RevokeOne(rows, id, reason, now)
    case OpRevokeAll(workspace, user, reason, except, now) => RevokeAll(rows, workspace, user, reason, except, now)
    case OpTouch(id, now) => Touch(rows, id, now)
    case OpCleanup(now) => Cleanup(rows, now)
    case OpDelete(olderThan, now) => DeleteOld(rows, now - olderThan)
    case OpAsk(_, _) => rows
  }

  function Run(rows: Sessions, ops: seq<Op>): Sessions
    decreases |ops|
  {
    if ops == [] then rows else Run(Apply(rows, ops[0]), ops[1..])
  }

  predicate Creates(ops: seq<Op>, id: string) {
    exists i :: 0 <= i < |ops| && ops[i].OpCreate? && ops[i].id == id
  }

  lemma CreatesNot(ops: seq<Op>, id: string)
    requires ops != [] && !Creates(ops, id)
    ensures !Creates(ops[1..], id) && !(ops[0].OpCreate? && ops[0].id == id)
  {
    assert forall i :: 0 <= i < |ops[1..]| ==> ops[1..][i] == ops[i + 1];
  }

  /** A revoked session never becomes active again, and when and why it was revoked never changes. */
  lemma {:induction false} RevocationIsFinal(rows: Sessions, ops: seq<Op>, id: string)
    requires id in rows && !rows[id].isActive && !Creates(ops, id)
    ensures id in Run(rows, ops) ==> Run(rows, ops)[id] == rows[id]
    decreases |ops|
  {
    if ops != [] {
      CreatesNot(ops, id);
      if id in Apply(rows, ops[0]) {
        assert Apply(rows, ops[0])[id] == rows[id];
        RevocationIsFinal(Apply(rows, ops[0]), ops[1..], id);
      } else {
        GoneStaysGone(Apply(rows, ops[0]), ops[1..], id);
      }
    }
  }

  lemma {:induction false} GoneStaysGone(rows: Sessions, ops: seq<Op>, id: string)
    requires id !in rows && !Creates(ops, id)
    ensures id !in Run(rows, ops)
    decreases |ops|
  {
    if ops != [] {
      CreatesNot(ops, id);
      GoneStaysGone(Apply(rows, ops[0]), ops[1..], id);
    }
  }

  /** The operation ends this active session: it is revoked by id or with all others of its user, or has expired. */
  predicate Ends(op: Op, id: string, s: Session) {
    match op
    case OpRevoke(i, _, _) => i == id
    case OpRevokeAll(workspace, user, _, except, _) => workspace == s.workspace && user == s.user && except != id
    case OpCleanup(now) => s.expiresAt < now
    case _ => false
  }

  predicate EndedBy(ops: seq<Op>, id: string, s: Session) {
    exists i :: 0 <= i < |ops| && Ends(ops[i], id, s)
  }

  lemma EndedByFirst(ops: seq<Op>, id: string, s: Session)
    requires ops != []
    ensures EndedBy(ops, id, s) <==> Ends(ops[0], id, s) || EndedBy(ops[1..], id, s)
  {
    if i :| 0 < i < |ops| && Ends(ops[i], id, s) {
      assert ops[1..][i - 1] == ops[i];
    }
  }

  /** Over every run a session stays active exactly when no operation ends it; what is done to the sessions of another
      workspace, of another user, or to others of the same user does not. */
  lemma {:induction false} StaysActiveIff(rows: Sessions, ops: seq<Op>, id: string)
    requires id in rows && rows[id].isActive && !Creates(ops, id)
    ensures var rows' := Run(rows, ops);
            (id in rows' && rows'[id].isActive) <==> !EndedBy(ops, id, rows[id])
    decreases |ops|
  {
    if ops != [] {
      var rows1 := Apply(rows, ops[0]);
      CreatesNot(ops, id);
      EndedByFirst(ops, id, rows[id]);
      assert id in rows1 && (rows1[id].isActive <==> !Ends(ops[0], id, rows[id]));
      if rows1[id].isActive {
        StaysActiveIff(rows1, ops[1..], id);
        assert forall op :: Ends(op, id, rows1[id]) <==> Ends(op, id, rows[id]);
      } else {
        RevocationIsFinal(rows1, ops[1..], id);
      }
    }
  }

  function Answers(rows: Sessions, ops: seq<Op>): seq<bool>
    decreases |ops|
  {
    if ops == [] then [] else
      (if ops[0].OpAsk? then [IsRevoked(rows, ops[0].id, ops[0].now)] else []) + Answers(Apply(rows, ops[0]), ops[1..])
  }

  predicate IsSweep(op: Op) {
    op.OpCleanup? || op.OpDelete?
  }

  function WithoutSweeps(ops: seq<Op>): seq<Op> {
    if ops == [] then []
    else if IsSweep(ops[0]) then WithoutSweeps(ops[1..])
    else [ops[0]] + WithoutSweeps(ops[1..])
  }

  function Later(op: Op, clock: int): int {
    if op.OpCleanup? || op.OpAsk? then op.now else clock
  }

  /** Cleanups and questions read a clock that never goes back. */
  predicate Orderly(ops: seq<Op>, clock: int) {
    ops == [] || (clock <= Later(ops[0], clock) && Orderly(ops[1..], Later(ops[0], clock)))
  }

  /** Nobody will ever see the session as live again. */
  predicate Dead(rows: Sessions, id: string, clock: int) {
    id !in rows || !rows[id].isActive || rows[id].expiresAt < clock
  }

  predicate AlikeAt(a: Sessions, b: Sessions, id: string, clock: int) {
    (id in a && id in b && a[id] == b[id]) || (Dead(a, id, clock) && Dead(b, id, clock))
  }

  ghost predicate Alike(a: Sessions, b: Sessions, clock: int) {
    forall id :: AlikeAt(a, b, id, clock)
  }

  lemma StepKeepsAlike(a: Sessions, b: Sessions, op: Op, clock: int)
    requires Alike(a, b, clock) && clock <= Later(op, clock)
    ensures Alike(Apply(a, op), Apply(b, op), Later(op, clock))
    ensures IsSweep(op) ==> Alike(Apply(a, op), b, Later(op, clock))
    ensures op.OpAsk? ==> IsRevoked(a, op.id, op.now) == IsRevoked(b, op.id, op.now)
  {
    forall id
      ensures AlikeAt(Apply(a, op), Apply(b, op), id, Later(op, clock))
      ensures IsSweep(op) ==> AlikeAt(Apply(a, op), b, id, Later(op, clock))
    {
      assert AlikeAt(a, b, id, clock);
    }
    if op.OpAsk? {
      assert AlikeAt(a, b, op.id, clock);
    }
  }

  lemma {:induction false} SweepsInvisible(a: Sessions, b: Sessions, ops: seq<Op>, clock: int)
    requires Alike(a, b, clock) && Orderly(ops, clock)
    ensures Answers(a, ops) == Answers(b, WithoutSweeps(ops))
    decreases |ops|
  {
    if ops != [] {
      var op := ops[0];
      StepKeepsAlike(a, b, op, clock);
      if IsSweep(op) {
        SweepsInvisible(Apply(a, op), b, ops[1..], Later(op, clock));
      } else {
        SweepsInvisible(Apply(a, op), Apply(b, op), ops[1..], Later(op, clock));
        assert WithoutSweeps(ops)[1..] == WithoutSweeps(ops[1..]);
      }
    }
  }

  /** Cleanup and deletion, wherever they run, change no answer of IsSessionRevoked. */
  lemma SweepTransparent(rows: Sessions, ops: seq<Op>, clock: int)
    requires Orderly(ops, clock)
    ensures Answers(rows, ops) == Answers(rows, WithoutSweeps(ops))
  {
    SweepsInvisible(rows, rows, ops, clock);
  }

  /** Once revoked, or expired, or gone: revoked at every later instant. */
  lemma {:induction false} RevokedForGood(rows: Sessions, ops: seq<Op>, id: string, now: int, later: int)
    requires IsRevoked(rows, id, now) && now <= later && !Creates(ops, id)
    ensures IsRevoked(Run(rows, ops), id, later)
    decreases |ops|
  {
    if ops != [] {
      CreatesNot(ops, id);
      assert IsRevoked(Apply(rows, ops[0]), id, now);
      RevokedForGood(Apply(rows, ops[0]), ops[1..], id, now, later);
    }
  }
}
