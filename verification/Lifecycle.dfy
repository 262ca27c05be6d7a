/** What CIBA requests, device codes and agent actions share: rows with a status and an expiry
    time, and background sweeps.  `IsPending` of a row is "status is pending and not expired"
    (models/ciba.go:84-91, models/device_auth.go:58-65, models/agent_action.go:138-145). */
module Lifecycle {
  datatype Status = Pending | Approved | AutoApproved | Authorized | Denied | Expired | Consumed

  datatype Row = Row(status: Status, expiresAt: int, createdAt: int)
  type Rows = map<string, Row>

  predicate IsExpired(row: Row, now: int) {
    now > row.expiresAt
  }

  predicate IsPending(row: Row, now: int) {
    row.status == Pending && !IsExpired(row, now)
  }

  /** The answer a reader gets for an id; a missing row is not pending. */
  predicate PendingAt(rows: Rows, id: string, now: int) {
    id in rows && IsPending(rows[id], now)
  }

  datatype Op =
    | Insert(id: string, row: Row)
    | Move(status: (string, Row) -> Status)   // UPDATE ... SET status, by id and row
    | Sweep(now: int)                         // pending rows past their expiry become expired
    | Purge(doomed: (string, Row) -> bool)    // DELETE, by id and row
    | Ask(id: string, now: int)

  function Swept(row: Row, now: int): Row {
    if row.status == Pending && row.expiresAt < now then row.(status := Expired) else row
  }

  function Apply(rows: Rows, op: Op): Rows {
    match op
    case Insert(id, row) => rows[id := row]
    case Move(status) => map id | id in rows :: rows[id].(status := status(id, rows[id]))
    case Sweep(now) => map id | id in rows :: Swept(rows[id], now)
    case Purge(doomed) => map id | id in rows && !doomed(id, rows[id]) :: rows[id]
    case Ask(_, _) => rows
  }

  /** The answers to the questions of a run. */
  function Answers(rows: Rows, ops: seq<Op>): seq<bool>
    decreases |ops|
  {
    if ops == [] then [] else
      (if ops[0].Ask? then [PendingAt(rows, ops[0].id, ops[0].now)] else []) + Answers(Apply(rows, ops[0]), ops[1..])
  }

  function WithoutSweeps(ops: seq<Op>): seq<Op> {
    if ops == [] then []
    else if ops[0].Sweep? then WithoutSweeps(ops[1..])
    else [ops[0]] + WithoutSweeps(ops[1..])
  }

  /** Sweeps and questions read a clock that never goes back. */
  predicate ClockOk(ops: seq<Op>, clock: int) {
    ops == [] ||
    (if ops[0].Sweep? || ops[0].Ask? then clock <= ops[0].now && ClockOk(ops[1..], ops[0].now)
      else ClockOk(ops[1..], clock))
  }

  /** The two tables agree on every row that has not expired by `clock`. */
  ghost predicate SameLive(a: Rows, b: Rows, clock: int) {
    forall id :: SameLiveAt(a, b, id, clock)
  }

  predicate SameLiveAt(a: Rows, b: Rows, id: string, clock: int) {
    || (id in a && id in b && a[id] == b[id])
    || ((id in a ==> a[id].expiresAt < clock) && (id in b ==> b[id].expiresAt < clock))
  }

  lemma StepKeepsSameLive(a: Rows, b: Rows, op: Op, clock: int)
    requires SameLive(a, b, clock) && ClockOk([op], clock)
    ensures var later := if op.Sweep? || op.Ask? then op.now else clock;
            && SameLive(Apply(a, op), Apply(b, op), later)
            && (op.Sweep? ==> SameLive(Apply(a, op), b, later))
            && (op.Ask? ==> PendingAt(a, op.id, op.now) == PendingAt(b, op.id, op.now))
  {
    var later := if op.Sweep? || op.Ask? then op.now else clock;
    forall id
      ensures SameLiveAt(Apply(a, op), Apply(b, op), id, later)
              && (op.Sweep? ==> SameLiveAt(Apply(a, op), b, id, later))
    {
      assert SameLiveAt(a, b, id, clock);
    }
    if op.Ask? {
      assert SameLiveAt(a, b, op.id, clock);
    }
  }

  lemma {:induction false} SweepsInvisible(a: Rows, b: Rows, ops: seq<Op>, clock: int)
    requires SameLive(a, b, clock) && ClockOk(ops, clock)
    ensures Answers(a, ops) == Answers(b, WithoutSweeps(ops))
    decreases |ops|
  {
    if ops != [] {
      var op := ops[0];
      StepKeepsSameLive(a, b, op, clock);
      var later := if op.Sweep? || op.Ask? then op.now else clock;
      if op.Sweep? {
        SweepsInvisible(Apply(a, op), b, ops[1..], later);
      } else {
        SweepsInvisible(Apply(a, op), Apply(b, op), ops[1..], later);
        var rest := WithoutSweeps(ops[1..]);
        assert WithoutSweeps(ops)[1..] == rest;
      }
    }
  }

  /** Taking all expiry sweeps out of a run changes no later IsPending answer. */
  lemma SweepTransparent(rows: Rows, ops: seq<Op>, clock: int)
    requires ClockOk(ops, clock)
    ensures Answers(rows, ops) == Answers(rows, WithoutSweeps(ops))
  {
    SweepsInvisible(rows, rows, ops, clock);
  }

  // ---------- the same for any table that steps like this one ----------

  /** The IsPending answers along a run of a table with states S and operations O, where `view` shows the
      table as rows and `lift` says which operation of this module each of its operations is. */
  ghost function Observed<S(!new), O(!new)>(view: S -> Rows, next: (S, O) -> S, lift: O -> Op, s: S, ops: seq<O>):
                            seq<bool>
    decreases |ops|
  {
    if ops == [] then [] else
      var op := lift(ops[0]);
      (if op.Ask? then [PendingAt(view(s), op.id, op.now)]
        else []) + Observed(view, next, lift, next(s, ops[0]), ops[1..])
  }

  ghost function Unswept<O(!new)>(lift: O -> Op, ops: seq<O>): seq<O> {
    if ops == [] then []
    else if lift(ops[0]).Sweep? then Unswept(lift, ops[1..])
    else [ops[0]] + Unswept(lift, ops[1..])
  }

  ghost function Lifted<O(!new)>(lift: O -> Op, ops: seq<O>): seq<Op> {
    if ops == [] then [] else [lift(ops[0])] + Lifted(lift, ops[1..])
  }

  ghost predicate StepsAlike<S(!new), O(!new)>(view: S -> Rows, next: (S, O) -> S, lift: O -> Op) {
    forall s, o :: view(next(s, o)) == Apply(view(s), lift(o))
  }

  lemma {:induction false} ObservedIsAnswers<S(!new), O(!new)>(view: S -> Rows, next: (S, O) -> S, lift: O -> Op,
                                               s: S, ops: seq<O>)
    requires StepsAlike(view, next, lift)
    ensures Observed(view, next, lift, s, ops) == Answers(view(s), Lifted(lift, ops))
    decreases |ops|
  {
    if ops != [] {
      ObservedIsAnswers(view, next, lift, next(s, ops[0]), ops[1..]);
      assert Lifted(lift, ops)[1..] == Lifted(lift, ops[1..]);
    }
  }

  lemma {:induction false} UnsweptLifts<O(!new)>(lift: O -> Op, ops: seq<O>)
    ensures WithoutSweeps(Lifted(lift, ops)) == Lifted(lift, Unswept(lift, ops))
  {
    if ops != [] {
      UnsweptLifts(lift, ops[1..]);
      assert Lifted(lift, ops)[1..] == Lifted(lift, ops[1..]);
      assert ([ops[0]] + Unswept(lift, ops[1..]))[1..] == Unswept(lift, ops[1..]);
    }
  }

  lemma TableTransparent<S(!new), O(!new)>(view: S -> Rows, next: (S, O) -> S, lift: O -> Op, s: S, ops: seq<O>,
                           clock: int)
    requires StepsAlike(view, next, lift) && ClockOk(Lifted(lift, ops), clock)
    ensures Observed(view, next, lift, s, ops) == Observed(view, next, lift, s, Unswept(lift, ops))
  {
    ObservedIsAnswers(view, next, lift, s, ops);
    ObservedIsAnswers(view, next, lift, s, Unswept(lift, ops));
    UnsweptLifts(lift, ops);
    SweepTransparent(view(s), Lifted(lift, ops), clock);
  }
}
