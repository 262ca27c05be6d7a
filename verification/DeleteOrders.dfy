/** Every order in which a DELETE statement can run its triggers.

    The selected rows go first.  Then, in any order, rows go that cascade from rows that are gone, and the
    RESTRICT keys into a row that is gone are checked against the rows still there.  The statement fails
    when a check does.  RelationalStore says without orders which statements fail in some order and
    which in every order; this module proves it. */
module DeleteOrders {
  import opened RelationalStore

  datatype Event = Remove(row: RowId) | Check(row: RowId)

  predicate Enabled(db: Db, gone: set<RowId>, e: Event) {
    match e
    case Remove(r) => r in db && r !in gone && Holds(db, r, Cascade, gone)
    case Check(r) => r in gone
  }

  function Next(gone: set<RowId>, e: Event): set<RowId> {
    if e.Remove? then gone + {e.row} else gone
  }

  /** A row that is still there restricts the row being checked. */
  predicate CheckFails(db: Db, gone: set<RowId>, e: Event) {
    e.Check? && exists r :: r in db && r !in gone && Holds(db, r, Restrict, {e.row})
  }

  predicate CanRun(db: Db, gone: set<RowId>, events: seq<Event>)
    decreases |events|
  {
    events == [] || (Enabled(db, gone, events[0]) && CanRun(db, Next(gone, events[0]), events[1..]))
  }

  function Run(gone: set<RowId>, events: seq<Event>): set<RowId>
    decreases |events|
  {
    if events == [] then gone else Run(Next(gone, events[0]), events[1..])
  }

  predicate Fails(db: Db, gone: set<RowId>, events: seq<Event>)
    decreases |events|
  {
    events != [] && (CheckFails(db, gone, events[0]) || Fails(db, Next(gone, events[0]), events[1..]))
  }

  /** Nothing is left to cascade, and every row that went has been checked. */
  ghost predicate Complete(db: Db, ids: set<RowId>, events: seq<Event>) {
    CascadeClosed(db, Run(ids, events)) && forall r :: r in Run(ids, events) ==> Check(r) in events
  }

  lemma {:induction false} Append(db: Db, gone: set<RowId>, a: seq<Event>, b: seq<Event>)
    requires CanRun(db, gone, a) && CanRun(db, Run(gone, a), b)
    ensures CanRun(db, gone, a + b) && Run(gone, a + b) == Run(Run(gone, a), b)
    ensures Fails(db, gone, a + b) <==> Fails(db, gone, a) || Fails(db, Run(gone, a), b)
    decreases |a|
  {
    if a == [] {
      assert a + b == b;
    } else {
      Append(db, Next(gone, a[0]), a[1..], b);
      assert (a + b)[1..] == a[1..] + b;
    }
  }

  // ---------- removing ----------

  lemma HoldsMore(db: Db, r: RowId, action: Action, a: set<RowId>, b: set<RowId>)
    requires Holds(db, r, action, a) && a <= b
    ensures Holds(db, r, action, b)
  {
  }

  /** Rows that all cascade from what is gone can go one after the other. */
  lemma {:induction false} RemoveAll(db: Db, gone: set<RowId>, more: set<RowId>) returns (events: seq<Event>)
    requires forall r :: r in more ==> r in db && r !in gone && Holds(db, r, Cascade, gone)
    ensures CanRun(db, gone, events) && Run(gone, events) == gone + more && !Fails(db, gone, events)
    decreases |more|
  {
    if r :| r in more {
      var rest := more - {r};
      forall x | x in rest ensures Holds(db, x, Cascade, gone + {r}) { HoldsMore(db, x, Cascade, gone, gone + {r}); }
      events := RemoveAll(db, gone + {r}, rest);
      assert gone + {r} + rest == gone + more;
      var all := [Remove(r)] + events;
      assert all[1..] == events;
      events := all;
    } else {
      assert more == {};
      events := [];
    }
  }

  /** Everything that cascades in a part of the store can be removed. */
  lemma {:induction false} RemoveCascaded(db: Db, part: Db, gone: set<RowId>) returns (events: seq<Event>)
    requires part.Keys <= db.Keys && forall r :: r in part ==> part[r] == db[r]
    ensures CanRun(db, gone, events) && Run(gone, events) == Cascaded(part, gone) && !Fails(db, gone, events)
    decreases |part.Keys - gone|
  {
    var more := set r | r in part.Keys - gone && Holds(part, r, Cascade, gone);
    if more == {} {
      events := [];
    } else {
      GrowsBy(part, gone, more);
      events := RemoveAll(db, gone, more);
      var rest := RemoveCascaded(db, part, gone + more);
      Append(db, gone, events, rest);
      events := events + rest;
    }
  }

  /** What has gone while row `r` has not. */
  lemma {:induction false} GoneBefore(db: Db, gone: set<RowId>, events: seq<Event>, upper: set<RowId>, r: RowId)
    requires CanRun(db, gone, events) && gone <= upper && CascadeClosed(Minus(db, r), upper) && r !in Run(gone, events)
    ensures gone <= Run(gone, events) <= upper
    decreases |events|
  {
    if events != [] {
      var e := events[0];
      RunGrows(Next(gone, e), events[1..]);
      if e.Remove? {
        HoldsMore(db, e.row, Cascade, gone, upper);
        assert Holds(Minus(db, r), e.row, Cascade, upper);
      }
      GoneBefore(db, Next(gone, e), events[1..], upper, r);
    }
  }

  lemma {:induction false} RunGrows(gone: set<RowId>, events: seq<Event>)
    ensures gone <= Run(gone, events)
    decreases |events|
  {
    if events != [] {
      RunGrows(Next(gone, events[0]), events[1..]);
    }
  }

  // ---------- refused in some order ----------

  /** The rows gone when a run first fails, the row being checked, and the row that restricts it. */
  lemma {:induction false} FirstFailure(db: Db, gone: set<RowId>, events: seq<Event>)
    returns (before: seq<Event>, b: RowId, r: RowId)
    requires CanRun(db, gone, events) && Fails(db, gone, events)
    ensures CanRun(db, gone, before) && b in Run(gone, before) && r in db && r !in Run(gone, before)
            && Holds(db, r, Restrict, {b})
    decreases |events|
  {
    if CheckFails(db, gone, events[0]) {
      before, b := [], events[0].row;
      r :| r in db && r !in gone && Holds(db, r, Restrict, {b});
    } else {
      before, b, r := FirstFailure(db, Next(gone, events[0]), events[1..]);
      var all := [events[0]] + before;
      assert all[1..] == before;
      before := all;
    }
  }

  lemma TripsFails(db: Db, ids: set<RowId>, r: RowId) returns (events: seq<Event>)
    requires r in db && Trips(db, ids, r)
    ensures CanRun(db, ids, events) && Fails(db, ids, events)
  {
    var ref :| ref in db[r].refs && ref.action == Restrict && ref.target in CascadedBefore(db, ids, r);
    events := RemoveCascaded(db, Minus(db, r), ids);
    CascadedIsClosed(Minus(db, r), ids);
    var check := [Check(ref.target)];
    var gone := Run(ids, events);
    assert r !in gone && Holds(db, r, Restrict, {ref.target});
    assert CheckFails(db, gone, Check(ref.target));
    assert CanRun(db, gone, check) && Fails(db, gone, check);
    Append(db, ids, events, check);
    events := events + check;
  }

  ghost predicate FailingOrder(db: Db, ids: set<RowId>, events: seq<Event>) {
    CanRun(db, ids, events) && Fails(db, ids, events)
  }

  /** Some order fails exactly when some row can be left behind by a row that it restricts. */
  lemma FailsInSomeOrderIff(db: Db, ids: set<RowId>)
    ensures (exists events :: FailingOrder(db, ids, events)) <==> exists r :: r in db && Trips(db, ids, r)
  {
    if events :| FailingOrder(db, ids, events) {
      var before, b, r := FirstFailure(db, ids, events);
      RunGrows(ids, before);
      CascadedIsClosed(Minus(db, r), ids);
      GoneBefore(db, ids, before, CascadedBefore(db, ids, r), r);
      HoldsMore(db, r, Restrict, {b}, CascadedBefore(db, ids, r));
      assert Trips(db, ids, r);
    }
    if r :| r in db && Trips(db, ids, r) {
      var events := TripsFails(db, ids, r);
      assert FailingOrder(db, ids, events);
    }
  }

  // ---------- refused in every order ----------

  lemma {:induction false} CheckAll(db: Db, gone: set<RowId>, todo: set<RowId>) returns (events: seq<Event>)
    requires todo <= gone && forall b :: b in todo ==> !CheckFails(db, gone, Check(b))
    ensures CanRun(db, gone, events) && Run(gone, events) == gone && !Fails(db, gone, events)
    ensures forall b :: b in todo ==> Check(b) in events
    decreases |todo|
  {
    if b :| b in todo {
      var rest := CheckAll(db, gone, todo - {b});
      events := [Check(b)] + rest;
      assert events[1..] == rest;
    } else {
      events := [];
    }
  }

  /** A row that never goes makes every check of a row that it restricts fail. */
  lemma {:induction false} CheckedFails(db: Db, gone: set<RowId>, events: seq<Event>, b: RowId, r: RowId)
    requires Check(b) in events && r in db && r !in Run(gone, events) && Holds(db, r, Restrict, {b})
    ensures Fails(db, gone, events)
    decreases |events|
  {
    RunGrows(gone, events);
    if events[0] != Check(b) {
      assert Check(b) in events[1..];
      CheckedFails(db, Next(gone, events[0]), events[1..], b, r);
    }
  }

  /** A complete run removes exactly what cascades. */
  lemma {:induction false} RunWithin(db: Db, gone: set<RowId>, events: seq<Event>, upper: set<RowId>)
    requires CanRun(db, gone, events) && gone <= upper && CascadeClosed(db, upper)
    ensures Run(gone, events) <= upper
    decreases |events|
  {
    if events != [] {
      var e := events[0];
      if e.Remove? {
        HoldsMore(db, e.row, Cascade, gone, upper);
      }
      RunWithin(db, Next(gone, e), events[1..], upper);
    }
  }

  lemma CompleteRemovesCascaded(db: Db, ids: set<RowId>, events: seq<Event>)
    requires CanRun(db, ids, events) && Complete(db, ids, events)
    ensures Run(ids, events) == Cascaded(db, ids)
  {
    CascadedIsClosed(db, ids);
    RunWithin(db, ids, events, Cascaded(db, ids));
    RunGrows(ids, events);
    CascadedIsLeast(db, ids, Run(ids, events));
  }

  ghost predicate PassingOrder(db: Db, ids: set<RowId>, events: seq<Event>) {
    CanRun(db, ids, events) && Complete(db, ids, events) && !Fails(db, ids, events)
  }

  /** Row `r` survives and restricts a row that goes. */
  predicate Restricts(db: Db, ids: set<RowId>, r: RowId) {
    r !in Cascaded(db, ids) && Holds(db, r, Restrict, Cascaded(db, ids))
  }

  /** Some order passes exactly when no surviving row restricts a row that goes. */
  lemma PassesInSomeOrderIff(db: Db, ids: set<RowId>)
    ensures (exists events :: PassingOrder(db, ids, events)) <==> !exists r :: r in db && Restricts(db, ids, r)
  {
    if r :| r in db && Restricts(db, ids, r) {
      var ref :| ref in db[r].refs && ref.action == Restrict && ref.target in Cascaded(db, ids);
      forall events | CanRun(db, ids, events) && Complete(db, ids, events)
        ensures Fails(db, ids, events)
      {
        CompleteRemovesCascaded(db, ids, events);
        CheckedFails(db, ids, events, ref.target, r);
      }
    } else {
      var events := RemoveThenCheck(db, ids);
      assert PassingOrder(db, ids, events);
    }
  }

  lemma RestrictsOne(db: Db, ids: set<RowId>, r: RowId, b: RowId)
    requires r !in Cascaded(db, ids) && b in Cascaded(db, ids) && Holds(db, r, Restrict, {b})
    ensures Restricts(db, ids, r)
  {
    HoldsMore(db, r, Restrict, {b}, Cascaded(db, ids));
  }

  lemma RemoveThenCheck(db: Db, ids: set<RowId>) returns (events: seq<Event>)
    requires forall r :: r in db ==> !Restricts(db, ids, r)
    ensures PassingOrder(db, ids, events)
  {
    CascadedIsClosed(db, ids);
    var gone := Cascaded(db, ids);
    events := RemoveCascaded(db, db, ids);
    forall b | b in gone ensures !CheckFails(db, gone, Check(b)) {
      if r :| r in db && r !in gone && Holds(db, r, Restrict, {b}) {
        RestrictsOne(db, ids, r, b);
      }
    }
    var checks := CheckAll(db, gone, gone);
    Append(db, ids, events, checks);
    events := events + checks;
  }

  // ---------- what the store says about a statement ----------

  /** A surviving row holds a NO ACTION key into what goes; that is checked after the statement. */
  predicate ForbidsAfter(db: Db, ids: set<RowId>, r: RowId) {
    r !in Cascaded(db, ids) && Holds(db, r, NoAction, Cascaded(db, ids))
  }

  lemma RestrictsTrips(db: Db, ids: set<RowId>, r: RowId)
    requires Restricts(db, ids, r)
    ensures Trips(db, ids, r)
  {
    CascadedIsClosed(db, ids);
    CascadedBeforeWithin(db, ids, r);
  }

  /** A statement may be refused exactly when some order fails, or a NO ACTION key is left dangling. */
  lemma MayBeRefusedIff(db: Db, ids: set<RowId>)
    ensures MayBeRefused(db, ids) <==>
              (exists events :: FailingOrder(db, ids, events)) || exists r :: r in db && ForbidsAfter(db, ids, r)
  {
    FailsInSomeOrderIff(db, ids);
    forall r | r in db
      ensures MayRefuse(db, ids, r) <==> Trips(db, ids, r) || ForbidsAfter(db, ids, r)
    {
      if Restricts(db, ids, r) {
        RestrictsTrips(db, ids, r);
      }
    }
    if r :| r in db && (Trips(db, ids, r) || ForbidsAfter(db, ids, r)) {
      assert MayRefuse(db, ids, r);
    }
    if r :| r in db && MayRefuse(db, ids, r) {
      assert Trips(db, ids, r) || ForbidsAfter(db, ids, r);
    }
  }

  /** It is refused in every order exactly when no order passes, or a NO ACTION key is left dangling. */
  lemma BarredIff(db: Db, ids: set<RowId>)
    ensures Barred(db, ids) <==>
              (!exists events :: PassingOrder(db, ids, events)) || exists r :: r in db && ForbidsAfter(db, ids, r)
  {
    PassesInSomeOrderIff(db, ids);
    if r :| r in db && (Restricts(db, ids, r) || ForbidsAfter(db, ids, r)) {
      assert Bars(db, ids, r);
    }
    if r :| r in db && Bars(db, ids, r) {
      assert Restricts(db, ids, r) || ForbidsAfter(db, ids, r);
    }
  }
}
