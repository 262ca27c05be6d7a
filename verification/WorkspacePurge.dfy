/** The workspace purge (database/workspace_repository.go:226-293): eleven DELETE statements in
    one transaction, run in an order that the foreign keys allow.  Every statement may run its triggers in
    any order; only the RESTRICT keys among the records of the workspace make that order matter. */
module WorkspacePurge {
  import opened RelationalStore

  /** The DELETE statements, in order. */
  const STEPS: seq<Table> := [
    RoleBindings, RolePermissions, Memberships, Roles, Permissions, OauthScopes, TotpSecrets,
    LifecycleEvents, Workspaces, UserGroups, Users]

  /** The row has a cascading key (role_id, user_id) to a row of that table and workspace. */
  predicate BelongsTo(db: Db, r: RowId, table: Table, w: WorkspaceId)
    requires r in db
  {
    exists ref :: ref in db[r].refs && ref.action == Cascade && InTable(db, ref.target, table, w)
  }

  predicate InTable(db: Db, r: RowId, table: Table, w: WorkspaceId) {
    r in db && db[r].table == table && db[r].workspace == w
  }

  /** The WHERE clause of each statement. */
  function Selected(db: Db, w: WorkspaceId, table: Table): set<RowId> {
    match table
    case RolePermissions => set r | r in db && db[r].table == RolePermissions && BelongsTo(db, r, Roles, w)
    case UserGroups => set r | r in db && db[r].table == UserGroups && BelongsTo(db, r, Users, w)
    case _ => set r | r in db && InTable(db, r, table, w)
  }

  /** The store after the first `i` statements, each taken to succeed. */
  function Ran(db: Db, w: WorkspaceId, steps: seq<Table>, i: nat): Db
    requires i <= |steps|
  {
    if i == 0 then db else
      var before := Ran(db, w, steps, i - 1);
      Deleted(before, Selected(before, w, steps[i - 1]))
  }

  /** Statement `i` is refused in every order of its triggers. */
  predicate BarredAt(db: Db, w: WorkspaceId, steps: seq<Table>, i: nat)
    requires i < |steps|
  {
    Barred(Ran(db, w, steps, i), Selected(Ran(db, w, steps, i), w, steps[i]))
  }

  /** Statement `i` is refused in some order of its triggers. */
  predicate MayFailAt(db: Db, w: WorkspaceId, steps: seq<Table>, i: nat)
    requires i < |steps|
  {
    MayBeRefused(Ran(db, w, steps, i), Selected(Ran(db, w, steps, i), w, steps[i]))
  }

  /** Which statements run their triggers in an order in which a row refuses, if there is one. */
  type Luck = nat -> bool

  predicate Fails(db: Db, w: WorkspaceId, steps: seq<Table>, i: nat, unlucky: Luck)
    requires i < |steps|
  {
    BarredAt(db, w, steps, i) || (unlucky(i) && MayFailAt(db, w, steps, i))
  }

  /** The first `i` statements all succeed. */
  predicate Succeeded(db: Db, w: WorkspaceId, steps: seq<Table>, i: nat, unlucky: Luck)
    requires i <= |steps|
  {
    i == 0 || (Succeeded(db, w, steps, i - 1, unlucky) && !Fails(db, w, steps, i - 1, unlucky))
  }

  /** The rows each statement reports as affected; rows that only cascade are not counted. */
  function Counts(db: Db, w: WorkspaceId, steps: seq<Table>, i: nat): map<Table, nat>
    requires i <= |steps|
  {
    if i == 0 then map[] else
      Counts(db, w, steps, i - 1)[steps[i - 1] := |Selected(Ran(db, w, steps, i - 1), w, steps[i - 1])|]
  }

  // ---------- the repository ----------

  datatype PurgeError =
    | DeleteFailed(table: Table, row: RowId)
    | UserAuditHistory(row: RowId)

  datatype TxResult = Committed(db: Db, deletedCounts: map<Table, nat>) | RolledBack(error: PurgeError)
  datatype PurgeResult = Purged(deletedCounts: map<Table, nat>) | Failed(error: PurgeError)

  /** ClassifyUserDeleteError: a foreign-key refusal of the users statement is an audit-history error. */
  function Classify(table: Table, row: RowId): PurgeError {
    if table == Users then UserAuditHistory(row) else DeleteFailed(table, row)
  }

  /** Statement `i` is the first to be refused, and `row` refuses it. */
  predicate FirstRefusal(db: Db, w: WorkspaceId, steps: seq<Table>, i: nat, unlucky: Luck, row: RowId) {
    && i < |steps|
    && Succeeded(db, w, steps, i, unlucky) && Fails(db, w, steps, i, unlucky)
    && row in Ran(db, w, steps, i)
    && MayRefuse(Ran(db, w, steps, i), Selected(Ran(db, w, steps, i), w, steps[i]), row)
  }

  /** One more successful statement. */
  lemma Step(db: Db, w: WorkspaceId, steps: seq<Table>, i: nat, unlucky: Luck, tx: Db, counts: map<Table, nat>)
    requires i < |steps| && tx == Ran(db, w, steps, i) && counts == Counts(db, w, steps, i)
    requires Succeeded(db, w, steps, i, unlucky)
    requires !Barred(tx, Selected(tx, w, steps[i])) && !(unlucky(i) && MayBeRefused(tx, Selected(tx, w, steps[i])))
    ensures Succeeded(db, w, steps, i + 1, unlucky)
    ensures Ran(db, w, steps, i + 1) == Deleted(tx, Selected(tx, w, steps[i]))
    ensures Counts(db, w, steps, i + 1) == counts[steps[i] := |Selected(tx, w, steps[i])|]
  {
  }

  lemma Refusal(db: Db, w: WorkspaceId, steps: seq<Table>, i: nat, unlucky: Luck, tx: Db, row: RowId)
    requires i < |steps| && tx == Ran(db, w, steps, i) && Succeeded(db, w, steps, i, unlucky)
    requires Barred(tx, Selected(tx, w, steps[i])) || (unlucky(i) && MayBeRefused(tx, Selected(tx, w, steps[i])))
    requires row in tx && MayRefuse(tx, Selected(tx, w, steps[i]), row)
    ensures FirstRefusal(db, w, steps, i, unlucky, row)
  {
  }

  /** The loop over the statements, inside the transaction. */
  method RunStatements(db: Db, w: WorkspaceId, steps: seq<Table>, unlucky: Luck) returns (result: TxResult)
    ensures result.Committed? ==> Succeeded(db, w, steps, |steps|, unlucky)
    ensures result.Committed? ==>
              result.db == Ran(db, w, steps, |steps|) && result.deletedCounts == Counts(db, w, steps, |steps|)
    ensures result.RolledBack? ==>
              exists i: nat :: FirstRefusal(db, w, steps, i, unlucky, result.error.row)
                && result.error == Classify(steps[i], result.error.row)
  {
    var tx, deletedCounts: map<Table, nat> := db, map[];
    for i := 0 to |steps|
      invariant tx == Ran(db, w, steps, i) && deletedCounts == Counts(db, w, steps, i)
      invariant Succeeded(db, w, steps, i, unlucky)
    {
      var ids := Selected(tx, w, steps[i]);
      var executed := ExecDelete(tx, ids, unlucky(i));
      if executed.Violation? {
        Refusal(db, w, steps, i, unlucky, tx, executed.row);
        return RolledBack(Classify(steps[i], executed.row));
      }
      Step(db, w, steps, i, unlucky, tx, deletedCounts);
      tx := executed.db;
      deletedCounts := deletedCounts[steps[i] := |ids|];
    }
    return Committed(tx, deletedCounts);
  }

  class WorkspaceRepository {
    var db: Db

    /** DeleteTenant: all statements, or nothing.  It fails exactly when a record outside names a user of
        the workspace, or records of the workspace restrict one another and the triggers of the
        workspace statement run in an order in which that matters. */
    method DeleteTenant(w: WorkspaceId, unlucky: Luck) returns (result: PurgeResult)
      modifies this
      ensures result.Purged? ==>
                && db == Ran(old(db), w, STEPS, |STEPS|)
                && result.deletedCounts == Counts(old(db), w, STEPS, |STEPS|)
      ensures result.Failed? ==> db == old(db)
      ensures Documented(old(db), w) ==>
                (result.Purged? <==>
                   !NamedElsewhere(old(db), w) && !(unlucky(WORKSPACES_STEP) && Entangled(old(db), w)))
      ensures Documented(old(db), w) && result.Purged? ==>
                && (forall r :: r in db <==> r in old(db) && old(db)[r].workspace != w)
                && (forall r :: r in db ==> PrunedRow(old(db), db, r))
                && Keyed(db)
      ensures Documented(old(db), w) && result.Purged? ==>
                forall i :: 0 <= i < |STEPS| ==> Reported(old(db), w, result.deletedCounts, STEPS[i])
      ensures Documented(old(db), w) && result.Failed? ==>
                || (result.error.UserAuditHistory? && NamesUserOf(old(db), result.error.row, w))
                || (&& result.error == DeleteFailed(Workspaces, result.error.row)
                    && Entangles(old(db), w, result.error.row))
    {
      var tx := RunStatements(db, w, STEPS, unlucky);
      if Documented(db, w) {
        if tx.RolledBack? {
          var i: nat :| FirstRefusal(db, w, STEPS, i, unlucky, tx.error.row)
            && tx.error == Classify(STEPS[i], tx.error.row);
          RefusalExplained(db, w, i, unlucky, tx.error.row);
        } else {
          CommitExplained(db, w, unlucky);
          forall i | 0 <= i < |STEPS| { CountsExplained(db, w, i); }
        }
      }
      match tx
      case RolledBack(error) =>
        return Failed(error);
      case Committed(after, deletedCounts) =>
        db := after;
        return Purged(deletedCounts);
    }
  }

  // ---------- the keys the purge is written for ----------

  /** The foreign keys: table of the referencing row, table of the referenced row, action. */
  predicate Key(child: Table, parent: Table, action: Action) {
    match (child, parent)
    case (UserGroups, Workspaces) => action == Cascade
    case (Memberships, Workspaces) => action == Cascade
    case (TotpSecrets, Workspaces) => action == Cascade
    case (Publications, Workspaces) => action == Cascade
    case (Records, Workspaces) => action == Cascade
    case (Links, Workspaces) => action == Cascade
    case (Clients, Workspaces) => action == SetNull
    case (Links, Clients) => action == Cascade
    case (OauthScopes, Workspaces) => action == NoAction
    case (Memberships, Roles) => action == Restrict
    case (RoleBindings, Roles) => action == Cascade
    case (RolePermissions, Roles) => action == Cascade
    case (Links, Roles) => action == Cascade
    case (Records, Roles) => action == SetNull
    case (RolePermissions, Permissions) => action == Cascade
    case (Records, RoleBindings) => action == SetNull
    case (OauthScopes, OauthScopes) => action == SetNull
    case (Records, OauthScopes) => action == SetNull
    case (Links, OauthScopes) => action == Cascade
    case (LifecycleEvents, Publications) => action == Restrict
    case (Records, Publications) => action == NoAction
    case (RoleBindings, Records) => action == Cascade
    case (UserGroups, Records) => action == Cascade
    case (OauthScopes, Records) => action == Cascade
    case (LifecycleEvents, Records) => action == Cascade || action == Restrict
    case (Links, Records) => action == Cascade
    case (Publications, Records) => action == Restrict
    case (Records, Records) => true
    case (RoleBindings, Users) => action == Cascade || action == SetNull
    case (UserGroups, Users) => action == Cascade || action == SetNull
    case (TotpSecrets, Users) => action == Cascade
    case (Links, Users) => action != Restrict
    case (Records, Users) => action != Restrict
    case _ => false
  }

  /** Every key is one of the above and points to a row. */
  predicate Keyed(db: Db) {
    forall r, ref :: r in db && ref in db[r].refs ==>
      ref.target in db && Key(db[r].table, db[ref.target].table, ref.action)
  }

  /** Only records naming a user, and clients whose home it is, reach into the workspace from outside it. */
  predicate Isolated(db: Db, w: WorkspaceId) {
    forall r, ref :: r in db && db[r].workspace != w && ref in db[r].refs && ref.target in db ==>
      ReachesIn(db, w, ref)
  }

  predicate ReachesIn(db: Db, w: WorkspaceId, ref: Ref)
    requires ref.target in db
  {
    db[ref.target].workspace == w ==>
      || (db[ref.target].table == Users && (ref.action == NoAction || ref.action == SetNull))
      || (db[ref.target].table == Workspaces && ref.action == SetNull)
  }

  /** The rows of the workspace hang from where their mandatory keys say. */
  predicate Anchored(db: Db, w: WorkspaceId) {
    forall r :: r in db && db[r].workspace == w ==>
      match db[r].table
      case UserGroups => BelongsTo(db, r, Workspaces, w)
      case Memberships => BelongsTo(db, r, Workspaces, w)
      case TotpSecrets => BelongsTo(db, r, Workspaces, w)
      case Publications => BelongsTo(db, r, Workspaces, w)
      case Records => BelongsTo(db, r, Workspaces, w)
      case RolePermissions => BelongsTo(db, r, Roles, w)
      case Links => BelongsTo(db, r, Workspaces, w) || BelongsTo(db, r, Roles, w) || BelongsTo(db, r, OauthScopes, w)
      case Clients => false
      case _ => true
  }

  predicate Documented(db: Db, w: WorkspaceId) {
    Keyed(db) && Isolated(db, w) && Anchored(db, w)
  }

  function RowsOf(db: Db, w: WorkspaceId): set<RowId> {
    set r | r in db && db[r].workspace == w
  }

  function UsersOf(db: Db, w: WorkspaceId): set<RowId> {
    set r | r in db && InTable(db, r, Users, w)
  }

  /** A record outside the workspace names one of its users through a NO ACTION key. */
  predicate NamesUserOf(db: Db, r: RowId, w: WorkspaceId) {
    r in db && db[r].workspace != w && Holds(db, r, NoAction, UsersOf(db, w))
  }

  predicate NamedElsewhere(db: Db, w: WorkspaceId) {
    exists r :: r in db && NamesUserOf(db, r, w)
  }

  /** A record or publication of the workspace restricts another of its records. */
  predicate Entangles(db: Db, w: WorkspaceId, r: RowId) {
    && r in db && db[r].workspace == w && db[r].table in {Records, Publications}
    && exists ref ::
         ref in db[r].refs && ref.action == Restrict && ref.target != r && InTable(db, ref.target, Records, w)
  }

  predicate Entangled(db: Db, w: WorkspaceId) {
    exists r :: r in db && Entangles(db, w, r)
  }

  /** The number reported for a table is that of the rows it had of the workspace; of user_groups, none. */
  predicate Reported(db: Db, w: WorkspaceId, counts: map<Table, nat>, table: Table) {
    && table in counts
    && counts[table] == if table == UserGroups then 0 else |set r | r in db && InTable(db, r, table, w)|
  }

  /** DELETE FROM workspaces. */
  const WORKSPACES_STEP: nat := 8

  // ---------- one statement ----------

  /** `keep` is what is left of `db` in the middle of the purge. */
  predicate Purging(db: Db, w: WorkspaceId, keep: set<RowId>) {
    && keep <= db.Keys
    && (forall r :: r in db && (db[r].workspace != w || db[r].table == Users) ==> r in keep)
    && (forall r, ref :: r in keep && ref in db[r].refs && ref.action == Cascade ==> ref.target in keep)
  }

  function Left(db: Db, w: WorkspaceId, keep: set<RowId>, tables: set<Table>): set<RowId> {
    set r | r in keep && r in db && db[r].workspace == w && db[r].table in tables
  }

  predicate Gone(db: Db, w: WorkspaceId, keep: set<RowId>, table: Table) {
    forall r :: r in keep && r in db && db[r].workspace == w ==> db[r].table != table
  }

  ghost predicate CascadeStays(tables: set<Table>) {
    forall child, parent :: parent in tables && Key(child, parent, Cascade) ==> child in tables
  }

  /** The rows that could refuse are gone, or go with the statement. */
  ghost predicate Unopposed(db: Db, w: WorkspaceId, keep: set<RowId>, ids: set<RowId>, tables: set<Table>) {
    forall child, parent :: parent in tables && (Key(child, parent, Restrict) || Key(child, parent, NoAction)) ==>
      Gone(db, w, keep, child) || Left(db, w, keep, {child}) <= Cascaded(Keeping(db, keep), ids)
  }

  lemma CascadeWithin(db: Db, w: WorkspaceId, keep: set<RowId>, ids: set<RowId>, tables: set<Table>)
    requires Documented(db, w) && Purging(db, w, keep) && ids <= Left(db, w, keep, tables) && Users !in tables
             && CascadeStays(tables)
    ensures ids <= Cascaded(Keeping(db, keep), ids) <= Left(db, w, keep, tables)
    ensures CascadeClosed(Keeping(db, keep), Cascaded(Keeping(db, keep), ids))
  {
    var cur, upper := Keeping(db, keep), Left(db, w, keep, tables);
    forall r | r in cur && Holds(cur, r, Cascade, upper)
      ensures r in upper
    {
      HoldsAfterKeeping(db, keep, r, Cascade, upper);
      var ref :| ref in db[r].refs && ref.action == Cascade && ref.target in upper;
      assert Key(db[r].table, db[ref.target].table, Cascade);
    }
    CascadedIsLeast(cur, ids, upper);
  }

  lemma NobodyBars(db: Db, w: WorkspaceId, keep: set<RowId>, ids: set<RowId>, tables: set<Table>, action: Action,
                   r: RowId)
    requires Documented(db, w) && keep <= db.Keys && r in keep && Users !in tables
    requires Cascaded(Keeping(db, keep), ids) <= Left(db, w, keep, tables) && Unopposed(db, w, keep, ids, tables)
    requires r !in Cascaded(Keeping(db, keep), ids) && (action == Restrict || action == NoAction)
    ensures !Holds(Keeping(db, keep), r, action, Cascaded(Keeping(db, keep), ids))
  {
    var gone := Cascaded(Keeping(db, keep), ids);
    HoldsAfterKeeping(db, keep, r, action, gone);
    forall ref | ref in db[r].refs && ref.action == action
      ensures ref.target !in gone
    {
      assert Key(db[r].table, db[ref.target].table, action);
    }
  }

  lemma StatementSucceeds(db: Db, w: WorkspaceId, keep: set<RowId>, ids: set<RowId>, tables: set<Table>)
    returns (less: set<RowId>)
    requires Documented(db, w) && Purging(db, w, keep)
    requires ids <= Left(db, w, keep, tables) && Users !in tables
    requires CascadeStays(tables) && Unopposed(db, w, keep, ids, tables)
    ensures !Barred(Keeping(db, keep), ids)
    ensures Deleted(Keeping(db, keep), ids) == Keeping(db, less)
    ensures Purging(db, w, less) && less <= keep - ids && keep - less <= Left(db, w, keep, tables)
  {
    var cur := Keeping(db, keep);
    CascadeWithin(db, w, keep, ids, tables);
    var gone := Cascaded(cur, ids);
    less := keep - gone;
    KeepingTwice(db, keep, less);
    assert cur.Keys - gone == less;
    forall r | r in cur ensures !Bars(cur, ids, r) {
      if r !in gone {
        NobodyBars(db, w, keep, ids, tables, Restrict, r);
        NobodyBars(db, w, keep, ids, tables, NoAction, r);
      }
    }
    forall r, ref | r in less && ref in db[r].refs && ref.action == Cascade
      ensures ref.target in less
    {
      HoldsAfterKeeping(db, keep, r, Cascade, gone);
    }
  }

  // ---------- why the order is right ----------

  const ALL_BUT_USERS: set<Table> := {
    Workspaces, UserGroups, Roles, Permissions, RolePermissions, RoleBindings, Memberships, OauthScopes,
    TotpSecrets, Publications, LifecycleEvents, Records, Links}

  /** The tables a DELETE on `table` can reach by cascading. */
  function Reach(table: Table): set<Table> {
    match table
    case Roles => {Roles, RoleBindings, RolePermissions, Links}
    case Permissions => {Permissions, RolePermissions}
    case OauthScopes => {OauthScopes, Links}
    case Workspaces => ALL_BUT_USERS
    case _ => {table}
  }

  predicate Earlier(table: Table, i: nat)
    requires i <= |STEPS|
  {
    exists k :: 0 <= k < i && STEPS[k] == table
  }

  lemma ReachIsClosed(i: nat)
    requires i < 10
    ensures CascadeStays(Reach(STEPS[i]))
  {
    var t := STEPS[i];
    assert t in [RoleBindings, RolePermissions, Memberships, Roles, Permissions, OauthScopes, TotpSecrets,
      LifecycleEvents, Workspaces, UserGroups];
  }

  lemma GuardingKeys(child: Table, parent: Table)
    ensures Key(child, parent, Restrict) ==>
              (child == Memberships && parent == Roles)
                || (child == LifecycleEvents && parent in {Publications, Records})
              || (child in {Records, Publications} && parent == Records)
    ensures Key(child, parent, NoAction) ==>
              (child == OauthScopes && parent == Workspaces)
                || (child == Records && parent in {Publications, Records}) || parent == Users
  {
  }

  lemma ReachedBy(i: nat)
    requires i < 10
    ensures Roles in Reach(STEPS[i]) ==> i == 3 || i == 8
    ensures Workspaces in Reach(STEPS[i]) || Publications in Reach(STEPS[i]) || Records in Reach(STEPS[i]) ==> i == 8
    ensures Users !in Reach(STEPS[i])
  {
  }

  /** Every table with a RESTRICT or NO ACTION key into what a statement reaches has been emptied by an earlier
      statement, but for the records and publications that go along with the workspace. */
  lemma OrderIsRight(i: nat, child: Table, parent: Table)
    requires i < 10 && parent in Reach(STEPS[i])
    ensures Key(child, parent, Restrict) ==>
              || (Earlier(child, i) && child != UserGroups)
              || (child in {Records, Publications} && parent == Records && i == WORKSPACES_STEP)
    ensures Key(child, parent, NoAction) ==>
              || (Earlier(child, i) && child != UserGroups)
              || (child == Records && i == WORKSPACES_STEP)
  {
    GuardingKeys(child, parent);
    ReachedBy(i);
    assert STEPS[2] == Memberships && STEPS[5] == OauthScopes && STEPS[7] == LifecycleEvents;
  }

  // ---------- the first ten statements ----------

  /** A row selected through its parent is of the workspace. */
  lemma SelectedThroughParent(db: Db, w: WorkspaceId, keep: set<RowId>, r: RowId, parent: Table)
    requires Documented(db, w) && Purging(db, w, keep) && parent in {Roles, Users}
    requires r in Keeping(db, keep) && BelongsTo(Keeping(db, keep), r, parent, w)
    ensures db[r].workspace == w
  {
    var cur := Keeping(db, keep);
    var ref :| ref in cur[r].refs && ref.action == Cascade && InTable(cur, ref.target, parent, w);
    assert ref in db[r].refs;
  }

  lemma RolePermissionsSelected(db: Db, w: WorkspaceId, keep: set<RowId>, r: RowId)
    requires Documented(db, w) && Purging(db, w, keep) && r in Left(db, w, keep, {RolePermissions})
    ensures r in Selected(Keeping(db, keep), w, RolePermissions)
  {
    var cur := Keeping(db, keep);
    assert BelongsTo(db, r, Roles, w);
    var ref :| ref in db[r].refs && ref.action == Cascade && InTable(db, ref.target, Roles, w);
    assert ref in cur[r].refs && InTable(cur, ref.target, Roles, w);
  }

  /** A statement selects rows that are left of its table; all of them, save for user_groups. */
  lemma SelectedIsLeft(db: Db, w: WorkspaceId, keep: set<RowId>, table: Table)
    requires Documented(db, w) && Purging(db, w, keep)
    ensures Selected(Keeping(db, keep), w, table) <= Left(db, w, keep, {table})
    ensures table != UserGroups ==> Selected(Keeping(db, keep), w, table) == Left(db, w, keep, {table})
  {
    var cur := Keeping(db, keep);
    if table == RolePermissions || table == UserGroups {
      var parent := if table == RolePermissions then Roles else Users;
      forall r | r in Selected(cur, w, table) ensures r in Left(db, w, keep, {table}) {
        SelectedThroughParent(db, w, keep, r, parent);
      }
    }
    if table == RolePermissions {
      forall r | r in Left(db, w, keep, {table}) ensures r in Selected(cur, w, table) {
        RolePermissionsSelected(db, w, keep, r);
      }
    }
  }

  /** A row of the workspace that hangs from it directly. */
  lemma GoesAlong(db: Db, w: WorkspaceId, keep: set<RowId>, r: RowId, part: Db)
    requires Documented(db, w) && Purging(db, w, keep) && r in Left(db, w, keep, {Records, Publications})
    requires r in part && part[r] == Keeping(db, keep)[r]
    ensures r in Cascaded(part, Left(db, w, keep, {Workspaces}))
  {
    var ids := Left(db, w, keep, {Workspaces});
    CascadedIsClosed(part, ids);
    assert BelongsTo(db, r, Workspaces, w);
    var ref :| ref in db[r].refs && ref.action == Cascade && InTable(db, ref.target, Workspaces, w);
    assert ref in part[r].refs && ref.target in ids;
    assert Holds(part, r, Cascade, Cascaded(part, ids));
  }

  /** The workspace takes its records and publications with it. */
  lemma RecordsGoAlong(db: Db, w: WorkspaceId, keep: set<RowId>)
    requires Documented(db, w) && Purging(db, w, keep)
    ensures Left(db, w, keep, {Records, Publications}) <= Cascaded(Keeping(db, keep), Left(db, w, keep, {Workspaces}))
  {
    forall r | r in Left(db, w, keep, {Records, Publications})
      ensures r in Cascaded(Keeping(db, keep), Left(db, w, keep, {Workspaces}))
    {
      GoesAlong(db, w, keep, r, Keeping(db, keep));
    }
  }

  ghost predicate GoneBefore(db: Db, w: WorkspaceId, keep: set<RowId>, i: nat)
    requires i <= |STEPS|
  {
    forall k :: 0 <= k < i && STEPS[k] != UserGroups ==> Gone(db, w, keep, STEPS[k])
  }

  lemma NobodyOpposes(db: Db, w: WorkspaceId, keep: set<RowId>, i: nat)
    requires Documented(db, w) && Purging(db, w, keep) && i < 10 && GoneBefore(db, w, keep, i)
    ensures Unopposed(db, w, keep, Selected(Keeping(db, keep), w, STEPS[i]), Reach(STEPS[i]))
  {
    SelectedIsLeft(db, w, keep, STEPS[i]);
    RecordsGoAlong(db, w, keep);
    forall child, parent | parent in Reach(STEPS[i]) && (Key(child, parent, Restrict) || Key(child, parent, NoAction))
      ensures Gone(db, w, keep, child) || (child in {Records, Publications} && i == WORKSPACES_STEP)
    {
      OrderIsRight(i, child, parent);
    }
    forall child | child in {Records, Publications} && i == WORKSPACES_STEP
      ensures Left(db, w, keep, {child}) <= Cascaded(Keeping(db, keep), Selected(Keeping(db, keep), w, STEPS[i]))
    {
      assert Left(db, w, keep, {child}) <= Left(db, w, keep, {Records, Publications});
    }
  }

  /** No record or publication of the workspace has gone yet. */
  ghost predicate RecordsStay(db: Db, w: WorkspaceId, keep: set<RowId>) {
    Left(db, w, db.Keys, {Records, Publications}) <= keep
  }

  lemma Advance(db: Db, w: WorkspaceId, keep: set<RowId>, i: nat) returns (less: set<RowId>)
    requires Documented(db, w) && Purging(db, w, keep) && i < 10 && GoneBefore(db, w, keep, i)
    ensures !Barred(Keeping(db, keep), Selected(Keeping(db, keep), w, STEPS[i]))
    ensures Deleted(Keeping(db, keep), Selected(Keeping(db, keep), w, STEPS[i])) == Keeping(db, less)
    ensures Purging(db, w, less) && less <= keep && GoneBefore(db, w, less, i + 1)
    ensures RecordsStay(db, w, keep) && i < WORKSPACES_STEP ==> RecordsStay(db, w, less)
  {
    var ids := Selected(Keeping(db, keep), w, STEPS[i]);
    SelectedIsLeft(db, w, keep, STEPS[i]);
    NobodyOpposes(db, w, keep, i);
    ReachIsClosed(i);
    assert STEPS[i] in Reach(STEPS[i]) && Users !in Reach(STEPS[i]);
    less := StatementSucceeds(db, w, keep, ids, Reach(STEPS[i]));
    OneTableGone(db, w, keep, less, ids, i);
  }

  lemma OneTableGone(db: Db, w: WorkspaceId, keep: set<RowId>, less: set<RowId>, ids: set<RowId>, i: nat)
    requires i < 10 && GoneBefore(db, w, keep, i) && keep <= db.Keys && less <= keep - ids
             && keep - less <= Left(db, w, keep, Reach(STEPS[i]))
    requires STEPS[i] != UserGroups ==> ids == Left(db, w, keep, {STEPS[i]})
    ensures GoneBefore(db, w, less, i + 1)
    ensures RecordsStay(db, w, keep) && i < WORKSPACES_STEP ==> RecordsStay(db, w, less)
  {
    ReachedBy(i);
    forall k | 0 <= k < i + 1 && STEPS[k] != UserGroups ensures Gone(db, w, less, STEPS[k]) {
      if k < i {
        assert Gone(db, w, keep, STEPS[k]);
      }
    }
    if RecordsStay(db, w, keep) && i < WORKSPACES_STEP {
      var reached := Left(db, w, keep, Reach(STEPS[i]));
      forall r | r in Left(db, w, db.Keys, {Records, Publications}) ensures r in less {
        assert r in keep && r !in reached;
        assert r !in keep - less;
      }
    }
  }

  /** What is left after the first `i` statements. */
  lemma {:induction false} RunTo(db: Db, w: WorkspaceId, i: nat) returns (keep: set<RowId>)
    requires Documented(db, w) && i <= 10
    ensures Ran(db, w, STEPS, i) == Keeping(db, keep)
    ensures Purging(db, w, keep) && GoneBefore(db, w, keep, i) && (i <= WORKSPACES_STEP ==> RecordsStay(db, w, keep))
  {
    if i == 0 {
      KeepingAll(db);
      keep := db.Keys;
    } else {
      keep := RunTo(db, w, i - 1);
      keep := Advance(db, w, keep, i - 1);
    }
  }

  lemma NotBarred(db: Db, w: WorkspaceId, i: nat)
    requires Documented(db, w) && i < 10
    ensures !BarredAt(db, w, STEPS, i)
  {
    var keep := RunTo(db, w, i);
    var less := Advance(db, w, keep, i);
  }

  // ---------- where the order of the triggers matters ----------

  /** The key through which a row can refuse points into what the statement reaches. */
  lemma TrippingKey(db: Db, w: WorkspaceId, keep: set<RowId>, ids: set<RowId>, tables: set<Table>, r: RowId)
    returns (ref: Ref)
    requires Documented(db, w) && Purging(db, w, keep) && ids <= Left(db, w, keep, tables) && Users !in tables
             && CascadeStays(tables)
    requires r in Keeping(db, keep) && Trips(Keeping(db, keep), ids, r)
    ensures r in db && ref in db[r].refs && ref.action == Restrict && ref.target != r
            && ref.target in Left(db, w, keep, tables)
  {
    var cur := Keeping(db, keep);
    CascadeWithin(db, w, keep, ids, tables);
    CascadedBeforeWithin(cur, ids, r);
    CascadedIsClosed(Minus(cur, r), ids);
    ref :| ref in cur[r].refs && ref.action == Restrict && ref.target in CascadedBefore(cur, ids, r);
  }

  /** Only the workspace statement, and only for records that restrict one another. */
  lemma TripsEntangles(db: Db, w: WorkspaceId, keep: set<RowId>, i: nat, r: RowId)
    requires Documented(db, w) && Purging(db, w, keep) && i < 10 && GoneBefore(db, w, keep, i)
    requires r in Keeping(db, keep) && Trips(Keeping(db, keep), Selected(Keeping(db, keep), w, STEPS[i]), r)
    ensures i == WORKSPACES_STEP && Entangles(db, w, r)
  {
    SelectedIsLeft(db, w, keep, STEPS[i]);
    ReachIsClosed(i);
    ReachedBy(i);
    assert STEPS[i] in Reach(STEPS[i]);
    var ref := TrippingKey(db, w, keep, Selected(Keeping(db, keep), w, STEPS[i]), Reach(STEPS[i]), r);
    RestrictingRow(db, w, keep, i, r, ref);
  }

  lemma RestrictingRow(db: Db, w: WorkspaceId, keep: set<RowId>, i: nat, r: RowId, ref: Ref)
    requires Documented(db, w) && keep <= db.Keys && i < 10 && GoneBefore(db, w, keep, i) && r in keep
    requires ref in db[r].refs && ref.action == Restrict && ref.target != r
             && ref.target in Left(db, w, keep, Reach(STEPS[i]))
    ensures i == WORKSPACES_STEP && Entangles(db, w, r)
  {
    assert Key(db[r].table, db[ref.target].table, Restrict) && db[r].workspace == w;
    OrderIsRight(i, db[r].table, db[ref.target].table);
  }

  /** And there each of them can refuse. */
  lemma EntanglesTrips(db: Db, w: WorkspaceId, keep: set<RowId>, r: RowId)
    requires Documented(db, w) && Purging(db, w, keep) && RecordsStay(db, w, keep) && Entangles(db, w, r)
    ensures r in Keeping(db, keep) && Trips(Keeping(db, keep), Selected(Keeping(db, keep), w, Workspaces), r)
  {
    var cur := Keeping(db, keep);
    SelectedIsLeft(db, w, keep, Workspaces);
    var ref :| ref in db[r].refs && ref.action == Restrict && ref.target != r && InTable(db, ref.target, Records, w);
    assert ref.target in Left(db, w, db.Keys, {Records, Publications})
      && r in Left(db, w, db.Keys, {Records, Publications});
    GoesAlong(db, w, keep, ref.target, Minus(cur, r));
    assert ref in cur[r].refs;
  }

  lemma MayFailIff(db: Db, w: WorkspaceId, i: nat)
    requires Documented(db, w) && i < 10
    ensures MayFailAt(db, w, STEPS, i) <==> i == WORKSPACES_STEP && Entangled(db, w)
  {
    var keep := RunTo(db, w, i);
    NotBarred(db, w, i);
    var cur := Keeping(db, keep);
    var ids := Selected(cur, w, STEPS[i]);
    if r :| r in cur && MayRefuse(cur, ids, r) {
      TripsEntangles(db, w, keep, i, r);
    }
    if i == WORKSPACES_STEP && Entangled(db, w) {
      var r :| r in db && Entangles(db, w, r);
      EntanglesTrips(db, w, keep, r);
      assert MayRefuse(cur, ids, r);
    }
  }

  lemma KeepingAll(db: Db)
    requires Keyed(db)
    ensures Keeping(db, db.Keys) == db
  {
    forall r | r in db ensures Keeping(db, db.Keys)[r] == db[r] {
      assert Keeping(db, db.Keys)[r].refs == db[r].refs;
    }
  }

  lemma AnchorLost(db: Db, w: WorkspaceId, keep: set<RowId>, r: RowId, table: Table)
    requires Purging(db, w, keep) && Gone(db, w, keep, table) && r in keep
    ensures !BelongsTo(db, r, table, w)
  {
  }

  /** After ten statements only the users of the workspace are left of it. */
  lemma OnlyUsersLeft(db: Db, w: WorkspaceId, keep: set<RowId>)
    requires Documented(db, w) && Purging(db, w, keep) && GoneBefore(db, w, keep, 10)
    ensures forall r :: r in keep && db[r].workspace == w ==> db[r].table == Users
  {
    forall r | r in keep && db[r].workspace == w
      ensures db[r].table == Users
    {
      assert forall k :: 0 <= k < 9 ==> Gone(db, w, keep, STEPS[k]);
      assert db[r].table != STEPS[0] && db[r].table != STEPS[1] && db[r].table != STEPS[2] && db[r].table != STEPS[3];
      assert db[r].table != STEPS[4] && db[r].table != STEPS[5] && db[r].table != STEPS[6] && db[r].table != STEPS[7];
      AnchorLost(db, w, keep, r, STEPS[8]);
      AnchorLost(db, w, keep, r, STEPS[3]);
      AnchorLost(db, w, keep, r, STEPS[5]);
    }
  }

  // ---------- the last statement ----------

  lemma OnlyUsersGo(db: Db, w: WorkspaceId, keep: set<RowId>)
    requires Documented(db, w) && Purging(db, w, keep)
    requires forall r :: r in keep && db[r].workspace == w ==> db[r].table == Users
    ensures Selected(Keeping(db, keep), w, Users) == UsersOf(db, w) == Cascaded(Keeping(db, keep), UsersOf(db, w))
    ensures Deleted(Keeping(db, keep), UsersOf(db, w)) == Keeping(db, db.Keys - RowsOf(db, w))
  {
    var cur, ids, rest := Keeping(db, keep), UsersOf(db, w), db.Keys - RowsOf(db, w);
    forall r | r in cur ensures !Holds(cur, r, Cascade, ids) {
      HoldsAfterKeeping(db, keep, r, Cascade, ids);
    }
    CascadedIsLeast(cur, ids, ids);
    assert cur.Keys - ids == rest;
    KeepingTwice(db, keep, rest);
  }

  /** DELETE FROM users is refused by exactly the records outside the workspace that name one of them,
      in every order of its triggers. */
  lemma RefusesIffNames(db: Db, w: WorkspaceId, keep: set<RowId>, r: RowId)
    requires Documented(db, w) && Purging(db, w, keep)
    requires forall r :: r in keep && db[r].workspace == w ==> db[r].table == Users
    ensures r in Keeping(db, keep) && Bars(Keeping(db, keep), UsersOf(db, w), r) <==> NamesUserOf(db, r, w)
    ensures r in Keeping(db, keep) && MayRefuse(Keeping(db, keep), UsersOf(db, w), r) <==> NamesUserOf(db, r, w)
  {
    OnlyUsersGo(db, w, keep);
    CascadedBeforeWithin(Keeping(db, keep), UsersOf(db, w), r);
    HoldsAfterKeeping(db, keep, r, NoAction, UsersOf(db, w));
    HoldsAfterKeeping(db, keep, r, Restrict, UsersOf(db, w));
    if ref :| r in db && ref in db[r].refs && ref.action == Restrict && ref.target in UsersOf(db, w) {
      assert Key(db[r].table, db[ref.target].table, Restrict);
    }
  }

  // ---------- the theorem ----------

  lemma UsersStatement(db: Db, w: WorkspaceId)
    requires Documented(db, w)
    ensures BarredAt(db, w, STEPS, 10) <==> NamedElsewhere(db, w)
    ensures MayFailAt(db, w, STEPS, 10) <==> NamedElsewhere(db, w)
    ensures var last := Ran(db, w, STEPS, 10);
            forall r :: r in last && MayRefuse(last, Selected(last, w, Users), r) ==> NamesUserOf(db, r, w)
    ensures Ran(db, w, STEPS, 11) == Keeping(db, db.Keys - RowsOf(db, w))
  {
    var keep := RunTo(db, w, 10);
    OnlyUsersLeft(db, w, keep);
    OnlyUsersGo(db, w, keep);
    var cur, ids := Keeping(db, keep), UsersOf(db, w);
    forall r
      ensures r in cur && Bars(cur, ids, r) <==> NamesUserOf(db, r, w)
      ensures r in cur && MayRefuse(cur, ids, r) <==> NamesUserOf(db, r, w)
    {
      RefusesIffNames(db, w, keep, r);
    }
  }

  /** The first ten statements can always succeed, and do in every order of their triggers unless records
      of the workspace restrict one another; the last succeeds if and only if no record outside the
      workspace names one of its users.  Then no row of the workspace is left, and every other row is
      there, with only its SET NULL keys to the workspace and its users cleared. */
  lemma PurgeCorrect(db: Db, w: WorkspaceId, i: nat)
    requires Documented(db, w) && i < 11
    ensures BarredAt(db, w, STEPS, i) <==> i == 10 && NamedElsewhere(db, w)
    ensures MayFailAt(db, w, STEPS, i) <==>
              || (i == WORKSPACES_STEP && Entangled(db, w))
              || (i == 10 && NamedElsewhere(db, w))
    ensures Ran(db, w, STEPS, 11) == Keeping(db, db.Keys - RowsOf(db, w))
  {
    UsersStatement(db, w);
    if i < 10 {
      NotBarred(db, w, i);
      MayFailIff(db, w, i);
    }
  }

  lemma {:induction false} StillSucceeded(db: Db, w: WorkspaceId, steps: seq<Table>, i: nat, n: nat, unlucky: Luck)
    requires i <= n <= |steps| && Succeeded(db, w, steps, n, unlucky)
    ensures Succeeded(db, w, steps, i, unlucky)
  {
    if i < n {
      StillSucceeded(db, w, steps, i, n - 1, unlucky);
    }
  }

  /** A purge that nobody refuses takes the rows of the workspace and the keys into them, and no others, so every key
      left still points to a row of the right table. */
  lemma PurgeKeepsKeys(db: Db, w: WorkspaceId)
    requires Documented(db, w) && !NamedElsewhere(db, w)
    ensures Pruned(db, Ran(db, w, STEPS, 11), RowsOf(db, w)) && Keyed(Ran(db, w, STEPS, 11))
  {
    UsersStatement(db, w);
    var after := Ran(db, w, STEPS, 11);
    forall r | r in after ensures PrunedRow(db, after, r) {
      forall ref | ref in db[r].refs ensures ref in after[r].refs <==> ref.target in after {
        OutsideKey(db, w, r, ref);
      }
    }
  }

  /** What an outside row holds into the workspace can be cleared. */
  lemma OutsideKey(db: Db, w: WorkspaceId, r: RowId, ref: Ref)
    requires Documented(db, w) && !NamedElsewhere(db, w) && r in db && db[r].workspace != w && ref in db[r].refs
    ensures ref.target in db && (db[ref.target].workspace == w ==> ref.action == SetNull)
  {
    assert ReachesIn(db, w, ref);
    assert Holds(db, r, NoAction, UsersOf(db, w)) ==> NamesUserOf(db, r, w);
  }

  lemma CommitExplained(db: Db, w: WorkspaceId, unlucky: Luck)
    requires Documented(db, w) && Succeeded(db, w, STEPS, 11, unlucky)
    ensures !NamedElsewhere(db, w) && !(unlucky(WORKSPACES_STEP) && Entangled(db, w))
    ensures Pruned(db, Ran(db, w, STEPS, 11), RowsOf(db, w)) && Keyed(Ran(db, w, STEPS, 11))
  {
    PurgeCorrect(db, w, 10);
    PurgeKeepsKeys(db, w);
    PurgeCorrect(db, w, WORKSPACES_STEP);
    StillSucceeded(db, w, STEPS, WORKSPACES_STEP + 1, 11, unlucky);
    assert !Fails(db, w, STEPS, 10, unlucky) && !Fails(db, w, STEPS, WORKSPACES_STEP, unlucky);
  }

  /** A refused purge is the users statement, refused by a record outside that names a user of the workspace,
      or the workspace statement, refused by a record that restricts another. */
  lemma RefusalExplained(db: Db, w: WorkspaceId, i: nat, unlucky: Luck, row: RowId)
    requires Documented(db, w) && FirstRefusal(db, w, STEPS, i, unlucky, row)
    ensures || (i == 10 && NamesUserOf(db, row, w))
            || (i == WORKSPACES_STEP && unlucky(i) && Entangles(db, w, row))
  {
    PurgeCorrect(db, w, i);
    if i == 10 {
      UsersStatement(db, w);
    } else {
      var keep := RunTo(db, w, i);
      NotBarred(db, w, i);
      TripsEntangles(db, w, keep, i, row);
    }
  }

  /** Rows of other workspaces, and clients, are untouched when they hold no SET NULL key into this one. */
  lemma OthersUntouched(db: Db, w: WorkspaceId, r: RowId)
    requires Documented(db, w) && r in db && db[r].workspace != w
    requires !Holds(db, r, SetNull, RowsOf(db, w))
    ensures r in Ran(db, w, STEPS, 11) && Ran(db, w, STEPS, 11)[r] == db[r]
  {
    UsersStatement(db, w);
    var rest := db.Keys - RowsOf(db, w);
    forall ref | ref in db[r].refs && ref.action == SetNull ensures ref.target in rest {
      assert ref.target in db;
    }
    assert Keeping(db, rest)[r].refs == db[r].refs;
  }

  // ---------- what the statements report ----------

  predicate NotReached(table: Table, i: nat)
    requires i <= 10
  {
    forall k :: 0 <= k < i ==> table !in Reach(STEPS[k])
  }

  /** A table that no statement has reached still has all its rows. */
  lemma {:induction false} StillThere(db: Db, w: WorkspaceId, i: nat, table: Table, r: RowId)
    requires Documented(db, w) && i <= 10 && NotReached(table, i) && InTable(db, r, table, w)
    ensures r in Ran(db, w, STEPS, i)
  {
    if i > 0 {
      StillThere(db, w, i - 1, table, r);
      var keep := RunTo(db, w, i - 1);
      OwnReach(i - 1);
      OneStatementSpares(db, w, keep, STEPS[i - 1], Reach(STEPS[i - 1]), r);
    }
  }

  lemma OwnReach(i: nat)
    requires i < 10
    ensures STEPS[i] in Reach(STEPS[i]) && Users !in Reach(STEPS[i]) && CascadeStays(Reach(STEPS[i]))
  {
    ReachIsClosed(i);
    ReachedBy(i);
  }

  /** A statement spares the tables it does not reach. */
  lemma OneStatementSpares(db: Db, w: WorkspaceId, keep: set<RowId>, table: Table, tables: set<Table>, r: RowId)
    requires Documented(db, w) && Purging(db, w, keep) && table in tables && Users !in tables && CascadeStays(tables)
    requires r in Keeping(db, keep) && db[r].table !in tables
    ensures r in Deleted(Keeping(db, keep), Selected(Keeping(db, keep), w, table))
  {
    var ids := Selected(Keeping(db, keep), w, table);
    SelectedIsLeft(db, w, keep, table);
    CascadeWithin(db, w, keep, ids, tables);
    assert r !in Left(db, w, keep, tables);
  }

  lemma NotYetReached(i: nat)
    requires i <= WORKSPACES_STEP
    ensures NotReached(STEPS[i], i)
  {
    forall k | 0 <= k < i ensures STEPS[i] !in Reach(STEPS[k]) {
      ReachBefore(i, k);
    }
  }

  lemma ReachBefore(i: nat, k: nat)
    requires k < i <= WORKSPACES_STEP
    ensures STEPS[i] !in Reach(STEPS[k])
  {
    ReachedBy(k);
    assert STEPS[0] == RoleBindings && STEPS[1] == RolePermissions && STEPS[2] == Memberships && STEPS[3] == Roles;
    assert STEPS[4] == Permissions && STEPS[5] == OauthScopes && STEPS[6] == TotpSecrets;
    assert STEPS[7] == LifecycleEvents && STEPS[8] == Workspaces;
  }

  /** Up to the workspace, a statement selects all rows of its table... */
  lemma SelectsAll(db: Db, w: WorkspaceId, i: nat)
    requires Documented(db, w) && i <= WORKSPACES_STEP
    ensures Selected(Ran(db, w, STEPS, i), w, STEPS[i]) == set r | r in db && InTable(db, r, STEPS[i], w)
  {
    var keep := RunTo(db, w, i);
    SelectedIsLeft(db, w, keep, STEPS[i]);
    NotYetReached(i);
    assert STEPS[i] != UserGroups by { ReachBefore(WORKSPACES_STEP, 0); }
    forall r | r in db && InTable(db, r, STEPS[i], w) ensures r in Left(db, w, keep, {STEPS[i]}) {
      StillThere(db, w, i, STEPS[i], r);
    }
  }

  /** ...and the statement on user_groups none, for they went with the workspace. */
  lemma NoGroupsSelected(db: Db, w: WorkspaceId)
    requires Documented(db, w)
    ensures Selected(Ran(db, w, STEPS, 9), w, UserGroups) == {}
  {
    var keep := RunTo(db, w, 9);
    SelectedIsLeft(db, w, keep, UserGroups);
    assert Gone(db, w, keep, STEPS[8]);
    forall r | r in Left(db, w, keep, {UserGroups}) ensures false {
      assert BelongsTo(db, r, Workspaces, w);
      AnchorLost(db, w, keep, r, Workspaces);
    }
  }

  /** The tallies grow by one table at a time. */
  predicate Tallies(tally: nat -> map<Table, nat>, size: nat -> nat, steps: seq<Table>, j: nat) {
    j < |steps| ==> tally(j + 1) == tally(j)[steps[j] := size(j)]
  }

  /** A table keeps its number as long as no later statement is on it. */
  lemma {:induction false} TallyKept(tally: nat -> map<Table, nat>, size: nat -> nat, steps: seq<Table>, i: nat, n: nat)
    requires i < n <= |steps| && forall j :: Tallies(tally, size, steps, j)
    requires forall j :: i < j < n ==> steps[j] != steps[i]
    ensures steps[i] in tally(n) && tally(n)[steps[i]] == size(i)
  {
    assert Tallies(tally, size, steps, n - 1);
    if i < n - 1 {
      TallyKept(tally, size, steps, i, n - 1);
    }
  }

  function SelectedBy(db: Db, w: WorkspaceId, steps: seq<Table>, i: nat): nat {
    if i < |steps| then |Selected(Ran(db, w, steps, i), w, steps[i])| else 0
  }

  function CountsAt(db: Db, w: WorkspaceId, steps: seq<Table>, i: nat): map<Table, nat> {
    if i <= |steps| then Counts(db, w, steps, i) else map[]
  }

  lemma CountsTally(db: Db, w: WorkspaceId, steps: seq<Table>, j: nat)
    ensures Tallies((n: nat) => CountsAt(db, w, steps, n), (n: nat) => SelectedBy(db, w, steps, n), steps, j)
  {
  }

  lemma CountOf(db: Db, w: WorkspaceId, steps: seq<Table>, i: nat, n: nat)
    requires i < n <= |steps| && forall j :: i < j < n ==> steps[j] != steps[i]
    ensures steps[i] in CountsAt(db, w, steps, n) && CountsAt(db, w, steps, n)[steps[i]] == SelectedBy(db, w, steps, i)
  {
    var tally, size := (j: nat) => CountsAt(db, w, steps, j), (j: nat) => SelectedBy(db, w, steps, j);
    forall j: nat ensures Tallies(tally, size, steps, j) { CountsTally(db, w, steps, j); }
    TallyKept(tally, size, steps, i, n);
  }

  lemma StepsDiffer(i: nat, j: nat)
    requires i < j < 11
    ensures STEPS[i] != STEPS[j]
  {
    if j <= WORKSPACES_STEP {
      ReachBefore(j, i);
    }
  }

  /** Each statement reports the rows its table had of the workspace, save that user_groups are reported as none. */
  lemma CountsExplained(db: Db, w: WorkspaceId, i: nat)
    requires Documented(db, w) && i < 11
    ensures Reported(db, w, Counts(db, w, STEPS, 11), STEPS[i])
  {
    forall j | i < j < 11 ensures STEPS[j] != STEPS[i] { StepsDiffer(i, j); }
    CountOf(db, w, STEPS, i, 11);
    if i <= WORKSPACES_STEP {
      SelectsAll(db, w, i);
      StepsDiffer(i, 9);
    } else if i == 9 {
      NoGroupsSelected(db, w);
    } else {
      var keep := RunTo(db, w, 10);
      OnlyUsersLeft(db, w, keep);
      OnlyUsersGo(db, w, keep);
    }
  }

  // ---------- no statement may come earlier ----------

  /** Roles before memberships would be refused, in every order of the triggers... */
  lemma RolesTooEarly(db: Db, w: WorkspaceId, membership: RowId, role: RowId)
    requires Documented(db, w) && membership in db && db[membership].table == Memberships
    requires Ref(role, Restrict) in db[membership].refs && InTable(db, role, Roles, w)
    ensures Barred(db, Selected(db, w, Roles))
  {
    var ids := Selected(db, w, Roles);
    KeepingAll(db);
    assert STEPS[3] == Roles;
    ReachIsClosed(3);
    SelectedIsLeft(db, w, db.Keys, Roles);
    CascadeWithin(db, w, db.Keys, ids, Reach(Roles));
    assert role in Cascaded(db, ids) && membership !in Cascaded(db, ids);
    assert Bars(db, ids, membership);
  }

  /** ...and so could be the workspace before the lifecycle events, although the events' publications go
      in the same statement; and it would be in every order, unless the event goes along as well. */
  lemma WorkspaceTooEarly(db: Db, w: WorkspaceId, event: RowId, publication: RowId)
    requires event in db && db[event].table == LifecycleEvents && Ref(publication, Restrict) in db[event].refs
    requires InTable(db, publication, Publications, w) && BelongsTo(db, publication, Workspaces, w)
    ensures Trips(db, Selected(db, w, Workspaces), event) && MayBeRefused(db, Selected(db, w, Workspaces))
    ensures event !in Cascaded(db, Selected(db, w, Workspaces)) ==> Barred(db, Selected(db, w, Workspaces))
  {
    var ids := Selected(db, w, Workspaces);
    CascadedIsClosed(Minus(db, event), ids);
    CascadedBeforeWithin(db, ids, event);
    var ref :| ref in db[publication].refs && ref.action == Cascade && InTable(db, ref.target, Workspaces, w);
    assert publication in Minus(db, event) && ref.target in ids;
    assert Holds(Minus(db, event), publication, Cascade, CascadedBefore(db, ids, event));
    assert Ref(publication, Restrict).target in CascadedBefore(db, ids, event);
    assert Trips(db, ids, event) && MayRefuse(db, ids, event);
    if event !in Cascaded(db, ids) {
      assert Holds(db, event, Restrict, Cascaded(db, ids));
      assert Bars(db, ids, event);
    }
  }
}
