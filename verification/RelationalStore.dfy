/** A relational store with foreign keys and PostgreSQL's referential actions.

    DELETE removes the selected rows and everything that cascades from them.  It is refused when a
    row that survives the statement holds a RESTRICT or a NO ACTION key into what goes.  A RESTRICT key
    is never deferred: a row that goes along may also refuse, if the row it points to can go first.
    Whether it does depends on the order in which the triggers run; DeleteOrders takes every order.
    SET NULL keys are cleared. */
module RelationalStore {
  type RowId = nat
  type WorkspaceId = nat

  datatype Table =
    | Workspaces | Users | UserGroups | Roles | Permissions | RolePermissions | RoleBindings
    | Memberships | OauthScopes | TotpSecrets | Publications | LifecycleEvents
    | Records   // every other table whose rows cascade from their workspace
    | Links     // leaf tables that cascade from a role, a scope or the workspace
    | Clients   // OAuth clients: rows of no workspace, which may name one as their home

  datatype Action = Cascade | Restrict | NoAction | SetNull
  datatype Ref = Ref(target: RowId, action: Action)
  datatype Row = Row(table: Table, workspace: WorkspaceId, refs: set<Ref>)
  type Db = map<RowId, Row>

  /** Row `r` holds a key with this action into `ids`. */
  predicate Holds(db: Db, r: RowId, action: Action, ids: set<RowId>) {
    r in db && exists ref :: ref in db[r].refs && ref.action == action && ref.target in ids
  }

  /** What goes when `ids` go: the rows themselves and, again and again, the rows that cascade from them. */
  function Cascaded(db: Db, ids: set<RowId>): set<RowId>
    decreases |db.Keys - ids|
  {
    var more := set r | r in db.Keys - ids && Holds(db, r, Cascade, ids);
    if more == {} then ids else (GrowsBy(db, ids, more); Cascaded(db, ids + more))
  }

  lemma GrowsBy(db: Db, ids: set<RowId>, more: set<RowId>)
    requires more != {} && more <= db.Keys - ids
    ensures |db.Keys - (ids + more)| < |db.Keys - ids|
  {
    assert db.Keys - ids == (db.Keys - (ids + more)) + more;
  }

  ghost predicate CascadeClosed(db: Db, ids: set<RowId>) {
    forall r :: r in db && Holds(db, r, Cascade, ids) ==> r in ids
  }

  /** The cascade is the least cascade-closed set above the selected rows. */
  lemma {:induction false} CascadedIsLeast(db: Db, ids: set<RowId>, upper: set<RowId>)
    requires ids <= upper && CascadeClosed(db, upper)
    ensures ids <= Cascaded(db, ids) <= upper
    ensures CascadeClosed(db, Cascaded(db, ids))
    decreases |db.Keys - ids|
  {
    var more := set r | r in db.Keys - ids && Holds(db, r, Cascade, ids);
    if more == {} {
      forall r | r in db && Holds(db, r, Cascade, ids) ensures r in ids {
        assert r !in more;
      }
    } else {
      GrowsBy(db, ids, more);
      forall r | r in more ensures r in upper {
        assert Holds(db, r, Cascade, upper);
      }
      CascadedIsLeast(db, ids + more, upper);
    }
  }

  lemma CascadedIsClosed(db: Db, ids: set<RowId>)
    ensures ids <= Cascaded(db, ids) <= ids + db.Keys && CascadeClosed(db, Cascaded(db, ids))
  {
    CascadedIsLeast(db, ids, ids + db.Keys);
  }

  /** The store without row `r`. */
  function Minus(db: Db, r: RowId): Db {
    db - {r}
  }

  /** What can go before row `r` does. */
  function CascadedBefore(db: Db, ids: set<RowId>, r: RowId): set<RowId> {
    Cascaded(Minus(db, r), ids)
  }

  lemma CascadedBeforeWithin(db: Db, ids: set<RowId>, r: RowId)
    ensures ids <= CascadedBefore(db, ids, r) <= Cascaded(db, ids)
    ensures r !in Cascaded(db, ids) ==> CascadedBefore(db, ids, r) == Cascaded(db, ids)
  {
    CascadedIsClosed(db, ids);
    CascadedIsLeast(Minus(db, r), ids, Cascaded(db, ids));
    if r !in Cascaded(db, ids) {
      CascadedIsClosed(Minus(db, r), ids);
      CascadedIsLeast(db, ids, CascadedBefore(db, ids, r));
    }
  }

  /** Row `r` survives the DELETE of `ids` and holds a key that forbids it, whatever the triggers' order. */
  predicate Bars(db: Db, ids: set<RowId>, r: RowId) {
    r !in Cascaded(db, ids) && (Holds(db, r, Restrict, Cascaded(db, ids)) || Holds(db, r, NoAction, Cascaded(db, ids)))
  }

  /** A row that `r` restricts can go before `r` does. */
  predicate Trips(db: Db, ids: set<RowId>, r: RowId) {
    r !in ids && Holds(db, r, Restrict, CascadedBefore(db, ids, r))
  }

  /** In some order of the triggers row `r` refuses. */
  predicate MayRefuse(db: Db, ids: set<RowId>, r: RowId) {
    Bars(db, ids, r) || Trips(db, ids, r)
  }

  /** Refused in every order. */
  predicate Barred(db: Db, ids: set<RowId>) {
    exists r :: r in db && Bars(db, ids, r)
  }

  /** Refused in some order. */
  predicate MayBeRefused(db: Db, ids: set<RowId>) {
    exists r :: r in db && MayRefuse(db, ids, r)
  }

  /** The store with only the rows in `keep`, SET NULL keys into the others cleared. */
  function Keeping(db: Db, keep: set<RowId>): Db {
    map r | r in db && r in keep :: db[r].(refs := set ref | ref in db[r].refs
      && (ref.action == SetNull ==> ref.target in keep))
  }

  function Deleted(db: Db, ids: set<RowId>): Db {
    Keeping(db, db.Keys - Cascaded(db, ids))
  }

  lemma KeepingTwice(db: Db, keep: set<RowId>, less: set<RowId>)
    requires less <= keep
    ensures Keeping(Keeping(db, keep), less) == Keeping(db, less)
  {
    var once := Keeping(db, keep);
    forall r | r in db && r in less
      ensures Keeping(once, less)[r] == Keeping(db, less)[r]
    {
      assert Keeping(once, less)[r].refs == Keeping(db, less)[r].refs;
    }
  }

  /** Other than cleared SET NULL keys, a kept row keeps its keys. */
  lemma HoldsAfterKeeping(db: Db, keep: set<RowId>, r: RowId, action: Action, ids: set<RowId>)
    requires action != SetNull
    ensures Holds(Keeping(db, keep), r, action, ids) <==> r in keep && Holds(db, r, action, ids)
  {
    if r in db && r in keep {
      var kept := Keeping(db, keep)[r].refs;
      assert forall ref: Ref :: ref.action == action ==> (ref in kept <==> ref in db[r].refs);
    }
  }

  /** Every key points to a row. */
  predicate Whole(db: Db) {
    forall r, ref :: r in db && ref in db[r].refs ==> ref.target in db
  }

  /** `after` is `before` without `gone`, and without the keys into it. */
  ghost predicate Pruned(before: Db, after: Db, gone: set<RowId>) {
    && after.Keys == before.Keys - gone
    && forall r :: r in after ==> PrunedRow(before, after, r)
  }

  predicate PrunedRow(before: Db, after: Db, r: RowId)
    requires r in after
  {
    && r in before && after[r].table == before[r].table && after[r].workspace == before[r].workspace
    && after[r].refs == set ref | ref in before[r].refs && ref.target in after
  }

  /** A surviving row refuses exactly the statements that would leave a key without its row... */
  lemma RefusedIffDangling(db: Db, ids: set<RowId>)
    requires Whole(db)
    ensures Whole(Deleted(db, ids)) <==> !Barred(db, ids)
  {
    var gone, after := Cascaded(db, ids), Deleted(db, ids);
    if Barred(db, ids) {
      var r :| r in db && Bars(db, ids, r);
      var ref :| ref in db[r].refs && (ref.action == Restrict || ref.action == NoAction) && ref.target in gone;
      assert ref in after[r].refs && ref.target !in after;
    } else {
      DeletedIsPruned(db, ids);
    }
  }

  /** ...and a statement that is not refused takes the keys into what goes with it, and no others. */
  lemma DeletedIsPruned(db: Db, ids: set<RowId>)
    requires Whole(db) && !Barred(db, ids)
    ensures Pruned(db, Deleted(db, ids), Cascaded(db, ids)) && Whole(Deleted(db, ids))
  {
    var gone, after := Cascaded(db, ids), Deleted(db, ids);
    CascadedIsClosed(db, ids);
    forall r | r in after ensures PrunedRow(db, after, r) {
      forall ref | ref in db[r].refs ensures ref in after[r].refs <==> ref.target in after {
        assert !Bars(db, ids, r);
        if ref.target in gone {
          assert Holds(db, r, ref.action, gone);
        }
      }
    }
  }

  datatype ExecResult = Done(db: Db) | Violation(row: RowId)

  /** One DELETE statement: the new store, or a row whose key refuses it.  `unlucky` says whether the
      triggers run in an order in which a row refuses, if there is one. */
  method ExecDelete(db: Db, ids: set<RowId>, unlucky: bool) returns (result: ExecResult)
    ensures result.Done? <==> !Barred(db, ids) && !(unlucky && MayBeRefused(db, ids))
    ensures result.Done? ==> result.db == Deleted(db, ids)
    ensures result.Done? && Whole(db) ==> Pruned(db, result.db, Cascaded(db, ids)) && Whole(result.db)
    ensures result.Violation? ==> result.row in db && MayRefuse(db, ids, result.row)
  {
    var barring := set r | r in db && Bars(db, ids, r);
    assert forall r :: r in db && Bars(db, ids, r) ==> r in barring;
    var refusing := set r | r in db && MayRefuse(db, ids, r);
    assert forall r :: r in db && MayRefuse(db, ids, r) ==> r in refusing;
    if barring != {} {
      var row :| row in barring;
      return Violation(row);
    }
    if unlucky && refusing != {} {
      var row :| row in refusing;
      return Violation(row);
    }
    if Whole(db) {
      DeletedIsPruned(db, ids);
    }
    return Done(Deleted(db, ids));
  }
}
