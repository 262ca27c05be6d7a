/** Every interleaving of device polls, authorisations, status updates and sweeps
    (database/device_auth_repository.go:188-296 with the poll of services/device_auth_service.go:199-299).

    A poll reads the row, then tries to stamp last_polled_at, then acts on the status it read: an
    authorised row is marked consumed, unconditionally, and its stored token is returned. */
module DeviceProtocol {
  import opened Common
  import L = Lifecycle
  import opened DeviceCodes

  type Poller = nat

  /** A poll that read an authorised row: before its stamp, then after it. */
  datatype Phase =
    | Read(code: string, token: string, readAt: int)
    | Cleared(code: string, token: string, readAt: int, polledAt: int)

  datatype Decided = Decided(grant: Grant, approve: bool)
  datatype Delivery = Delivery(token: string, readAt: int, polledAt: int, at: int)

  /** History of one device code. */
  datatype Record = Record(deadline: int, decisions: seq<Decided>, accepted: seq<int>, deliveries: seq<Delivery>)

  datatype World = World(rows: Codes, records: map<string, Record>, polls: map<Poller, Phase>, clock: int)

  datatype Step =
    | Create(code: string, userCode: string, grant: Grant, expiresAt: int, now: int)
    | Authorize(userCode: string, grant: Grant, approve: bool, now: int)
    | MarkExpired(code: string, now: int)                // UpdateStatus(expired) by anyone who saw it expired
    | ReadRow(poller: Poller, code: string, now: int)    // FindByDeviceCode
    | Stamp(poller: Poller, now: int)                    // UpdateLastPolled of that poll
    | PollOther(code: string, now: int)                  // a poll that read any other status
    | Deliver(poller: Poller, now: int)                  // MarkAsConsumed and return the token
    | ExpirySweep(now: int)
    | DeleteSweep(olderThan: int, now: int)

  function Start(clock: int): World {
    World(map[], map[], map[], clock)
  }

  predicate Enabled(w: World, step: Step) {
    match step
    case Create(code, _, _, _, _) => code !in w.records
    case MarkExpired(code, now) => code in w.rows ==> w.rows[code].expiresAt < now
    case ReadRow(poller, code, now) => poller !in w.polls
    case Stamp(poller, _) => poller in w.polls && w.polls[poller].Read? && w.polls[poller].code in w.records
    case PollOther(code, _) => code in w.rows ==> code in w.records
    case Deliver(poller, _) => poller in w.polls && w.polls[poller].Cleared? && w.polls[poller].code in w.records
    case _ => true
  }

  predicate ReadsToken(w: World, code: string, now: int) {
    code in w.rows && now <= w.rows[code].expiresAt && w.rows[code].status == L.Authorized
      && w.rows[code].grant.accessToken != ""
  }

  function NoteDecisions(w: World, userCode: string, d: Decided): map<string, Record> {
    map code | code in w.records ::
      if code in w.rows && Decidable(w.rows[code], userCode)
      then w.records[code].(decisions := w.records[code].decisions + [d])
      else w.records[code]
  }

  /** UpdateLastPolled at `now`, noting an accepted stamp. */
  function PolledWorld(w: World, interval: int, code: string, now: int): World
    requires code in w.rows ==> code in w.records
  {
    if PollAccepted(w.rows, code, interval, now)
    then w.(rows := Polled(w.rows, code, interval, now),
            records := w.records[code := w.records[code].(accepted := w.records[code].accepted + [now])])
    else w
  }

  function Next(w: World, interval: int, step: Step): World
    requires Enabled(w, step)
  {
    var w1 := w.(clock := step.now);
    match step
    case Create(code, userCode, grant, expiresAt, now) =>
      w1.(rows := w.rows[code := DeviceCode(userCode, L.Pending, grant, expiresAt, now, None, None)],
          records := w.records[code := Record(expiresAt, [], [], [])])
    case Authorize(userCode, grant, approve, now) =>
      w1.(rows := Decide(w.rows, userCode, grant, approve, now),
        records := NoteDecisions(w, userCode, Decided(grant, approve)))
    case MarkExpired(code, now) => w1.(rows := SetStatus(w.rows, code, L.Expired))
    case ReadRow(poller, code, now) =>
      if ReadsToken(w, code, now) then w1.(polls := w.polls[poller := Read(code, w.rows[code].grant.accessToken,
        now)]) else w1
    case Stamp(poller, now) =>
      var Read(code, token, readAt) := w.polls[poller];
      var w2 := PolledWorld(w1, interval, code, now);
      if PollAccepted(w.rows, code, interval, now)
      then w2.(polls := w.polls[poller := Cleared(code, token, readAt, now)])
      else w2.(polls := w.polls - {poller})
    case PollOther(code, now) => PolledWorld(w1, interval, code, now)
    case Deliver(poller, now) =>
      var Cleared(code, token, readAt, polledAt) := w.polls[poller];
      var r := w.records[code];
      w1.(rows := SetStatus(w.rows, code, L.Consumed), polls := w.polls - {poller},
          records := w.records[code := r.(deliveries := r.deliveries + [Delivery(token, readAt, polledAt, now)])])
    case ExpirySweep(now) => w1.(rows := ExpireOld(w.rows, now))
    case DeleteSweep(olderThan, now) => w1.(rows := DeleteOld(w.rows, now - olderThan))
  }

  predicate CanRun(w: World, interval: int, steps: seq<Step>)
    decreases |steps|
  {
    steps == [] || (Enabled(w, steps[0]) && CanRun(Next(w, interval, steps[0]), interval, steps[1..]))
  }

  function Run(w: World, interval: int, steps: seq<Step>): World
    requires CanRun(w, interval, steps)
    decreases |steps|
  {
    if steps == [] then w else Run(Next(w, interval, steps[0]), interval, steps[1..])
  }

  // ---------- one decision, one set of fields, one token; spaced polls ----------

  /** Accepted stamps are at least `interval` apart, one after the other. */
  predicate Spaced(stamps: seq<int>, interval: int) {
    forall i :: 0 <= i < |stamps| - 1 ==> stamps[i] + interval <= stamps[i + 1]
  }

  /** What a decided code can read: the decision, until it is consumed or marked expired. */
  predicate Follows(status: L.Status, approve: bool) {
    status == L.Expired || if approve then status == L.Authorized || status == L.Consumed else status == L.Denied
  }

  /** The row carries the fields of the one winning decision, and nothing has been decided while it is pending. */
  predicate RowOk(row: DeviceCode, record: Record) {
    && row.expiresAt == record.deadline
    && (if record.decisions == [] then row.status == L.Pending || row.status == L.Expired
        else row.grant == record.decisions[0].grant && Follows(row.status, record.decisions[0].approve))
    && (if record.accepted == [] then row.lastPolledAt.None?
        else row.lastPolledAt == Some(record.accepted[|record.accepted| - 1]))
  }

  /** The token is the one the winning, approving decision stored, and was read in time. */
  predicate TokenOk(token: string, readAt: int, record: Record) {
    && record.decisions != [] && record.decisions[0].approve && token == record.decisions[0].grant.accessToken
    && token != "" && readAt <= record.deadline
  }

  predicate DeliveryOk(d: Delivery, record: Record) {
    TokenOk(d.token, d.readAt, record)
  }

  ghost predicate CodeOk(w: World, interval: int, code: string) {
    if code in w.records then
      && |w.records[code].decisions| <= 1
      && Spaced(w.records[code].accepted, interval)
      && (code in w.rows ==> RowOk(w.rows[code], w.records[code]))
      && (forall i :: 0 <= i < |w.records[code].deliveries| ==>
            DeliveryOk(w.records[code].deliveries[i], w.records[code]))
    else code !in w.rows
  }

  ghost predicate Inv(w: World, interval: int) {
    && (forall code :: CodeOk(w, interval, code))
    && (forall p :: p in w.polls ==> PollOk(w, w.polls[p]))
  }

  predicate PollOk(w: World, phase: Phase) {
    phase.code in w.records && TokenOk(phase.token, phase.readAt, w.records[phase.code])
  }

  lemma PollKeepsCode(w: World, interval: int, step: Step, code: string)
    requires CodeOk(w, interval, code) && Enabled(w, step) && (step.Stamp? || step.PollOther?)
    ensures CodeOk(Next(w, interval, step), interval, code)
  {
  }

  lemma DeliverKeepsCode(w: World, interval: int, step: Step, code: string)
    requires CodeOk(w, interval, code) && Enabled(w, step) && step.Deliver? && PollOk(w, w.polls[step.poller])
    ensures CodeOk(Next(w, interval, step), interval, code)
  {
  }

  lemma AuthorizeKeepsCode(w: World, interval: int, step: Step, code: string)
    requires CodeOk(w, interval, code) && Enabled(w, step) && step.Authorize?
    ensures CodeOk(Next(w, interval, step), interval, code)
  {
  }

  lemma StepKeepsCode(w: World, interval: int, step: Step, code: string)
    requires Inv(w, interval) && Enabled(w, step)
    ensures CodeOk(Next(w, interval, step), interval, code)
  {
    assert CodeOk(w, interval, code);
    if step.Stamp? || step.PollOther? {
      PollKeepsCode(w, interval, step, code);
    } else if step.Deliver? {
      assert PollOk(w, w.polls[step.poller]);
      DeliverKeepsCode(w, interval, step, code);
    } else if step.Authorize? {
      AuthorizeKeepsCode(w, interval, step, code);
    }
  }

  lemma StepKeepsPoll(w: World, interval: int, step: Step, p: Poller)
    requires Inv(w, interval) && Enabled(w, step)
    requires p in Next(w, interval, step).polls
    ensures PollOk(Next(w, interval, step), Next(w, interval, step).polls[p])
  {
    if p in w.polls {
      assert PollOk(w, w.polls[p]);
      assert CodeOk(w, interval, w.polls[p].code);
    } else {
      assert CodeOk(w, interval, step.code);
    }
  }

  lemma StepKeepsInv(w: World, interval: int, step: Step)
    requires Inv(w, interval) && Enabled(w, step)
    ensures Inv(Next(w, interval, step), interval)
  {
    var w' := Next(w, interval, step);
    forall code ensures CodeOk(w', interval, code) { StepKeepsCode(w, interval, step, code); }
    forall p | p in w'.polls ensures PollOk(w', w'.polls[p]) { StepKeepsPoll(w, interval, step, p); }
  }

  lemma {:induction false} RunKeepsInv(w: World, interval: int, steps: seq<Step>)
    requires Inv(w, interval) && CanRun(w, interval, steps)
    ensures Inv(Run(w, interval, steps), interval)
    decreases |steps|
  {
    if steps != [] {
      StepKeepsInv(w, interval, steps[0]);
      RunKeepsInv(Next(w, interval, steps[0]), interval, steps[1..]);
    }
  }

  /** One decision, which the row follows, and whose token every delivery hands out. */
  ghost predicate DecidedOnce(w: World, code: string)
    requires code in w.records
  {
    var r := w.records[code];
    && |r.decisions| <= 1
    && (r.decisions != [] && code in w.rows ==>
          && w.rows[code].grant == r.decisions[0].grant
          && (r.decisions[0].approve ==> w.rows[code].status in {L.Authorized, L.Consumed, L.Expired})
          && (!r.decisions[0].approve ==> w.rows[code].status in {L.Denied, L.Expired}))
    && (forall i :: 0 <= i < |r.deliveries| ==> DeliveryOk(r.deliveries[i], r))
  }

  lemma OkDecidedOnce(w: World, interval: int, code: string)
    requires CodeOk(w, interval, code) && code in w.records
    ensures DecidedOnce(w, code)
  {
  }

  /** In every interleaving, with any clocks: a code is decided at most once; from then on it is not
      pending and its user, workspace, client and token are those of that decision; an approved code reads as
      authorised, a refused one as denied, until it is consumed or marked expired; and every token handed out is
      the one that the approving decision stored, not empty, and read before the code's deadline was over. */
  lemma SingleDecision(interval: int, clock: int, steps: seq<Step>, code: string)
    requires CanRun(Start(clock), interval, steps) && code in Run(Start(clock), interval, steps).records
    ensures DecidedOnce(Run(Start(clock), interval, steps), code)
  {
    RunKeepsInv(Start(clock), interval, steps);
    assert CodeOk(Run(Start(clock), interval, steps), interval, code);
    OkDecidedOnce(Run(Start(clock), interval, steps), interval, code);
  }

  /** A code that does not read as pending never does again, at any later time. */
  lemma {:induction false} NeverPendingAgain(w: World, interval: int, steps: seq<Step>, code: string, now: int,
                                             later: int)
    requires CanRun(w, interval, steps) && code in w.records && now <= later
    requires !L.PendingAt(View(w.rows), code, now)
    ensures !L.PendingAt(View(Run(w, interval, steps).rows), code, later)
    decreases |steps|
  {
    if steps != [] {
      StepNotPending(w, interval, steps[0], code, now);
      NeverPendingAgain(Next(w, interval, steps[0]), interval, steps[1..], code, now, later);
    }
  }

  lemma StepNotPending(w: World, interval: int, step: Step, code: string, now: int)
    requires Enabled(w, step) && code in w.records && !L.PendingAt(View(w.rows), code, now)
    ensures code in Next(w, interval, step).records && !L.PendingAt(View(Next(w, interval, step).rows), code, now)
  {
    var w' := Next(w, interval, step);
    assert code in w'.rows ==> code in w.rows && w'.rows[code].expiresAt == w.rows[code].expiresAt;
  }

  // ---------- what IsPending tells a reader ----------

  /** An expiry step that reaches an undecided code with this deadline. */
  predicate Expires(step: Step, code: string, deadline: int) {
    (step.ExpirySweep? || (step.MarkExpired? && step.code == code)) && deadline < step.now
  }

  predicate ExpiredBy(steps: seq<Step>, code: string, deadline: int) {
    exists i :: 0 <= i < |steps| && Expires(steps[i], code, deadline)
  }

  lemma ExpiredByFirst(steps: seq<Step>, code: string, deadline: int)
    requires steps != []
    ensures ExpiredBy(steps, code, deadline)
            <==> Expires(steps[0], code, deadline) || ExpiredBy(steps[1..], code, deadline)
  {
    if i :| 0 < i < |steps| && Expires(steps[i], code, deadline) {
      assert steps[1..][i - 1] == steps[i];
    }
  }

  predicate Creates(steps: seq<Step>, code: string, k: int) {
    0 <= k < |steps| && steps[k].Create? && steps[k].code == code
  }

  /** A code that was issued stays issued, decided stays decided, and gone stays gone. */
  lemma StepRemembers(w: World, interval: int, step: Step, code: string)
    requires Enabled(w, step) && code in w.records
    ensures var w' := Next(w, interval, step);
            && code in w'.records && (code !in w.rows ==> code !in w'.rows)
            && (w.records[code].decisions != [] ==> w'.records[code].decisions != [])
  {
  }

  lemma {:induction false} RunRemembers(w: World, interval: int, steps: seq<Step>, code: string)
    requires CanRun(w, interval, steps) && code in w.records
    ensures var w' := Run(w, interval, steps);
            && code in w'.records && (code !in w.rows ==> code !in w'.rows)
            && (w.records[code].decisions != [] ==> w'.records[code].decisions != [])
    decreases |steps|
  {
    if steps != [] {
      StepRemembers(w, interval, steps[0], code);
      RunRemembers(Next(w, interval, steps[0]), interval, steps[1..], code);
    }
  }

  lemma StepExpiresIff(w: World, interval: int, step: Step, code: string)
    requires CodeOk(w, interval, code) && Enabled(w, step) && CodeOk(Next(w, interval, step), interval, code)
    requires var w' := Next(w, interval, step);
             && code in w.records && code in w'.records && code in w.rows && code in w'.rows
             && w.records[code].decisions == [] && w'.records[code].decisions == []
    ensures var w' := Next(w, interval, step);
            && w'.rows[code].expiresAt == w.rows[code].expiresAt
            && (w'.rows[code].status == L.Expired
                <==> w.rows[code].status == L.Expired || Expires(step, code, w.rows[code].expiresAt))
  {
  }

  /** While it is undecided, a code has expired exactly when an expiry step has reached it. */
  lemma {:induction false} ExpiredIff(w: World, interval: int, steps: seq<Step>, code: string, deadline: int)
    requires Inv(w, interval) && CanRun(w, interval, steps)
    requires code in w.rows && code in w.records && w.rows[code].expiresAt == deadline
    requires code in Run(w, interval, steps).rows && code in Run(w, interval, steps).records
    requires Run(w, interval, steps).records[code].decisions == []
    ensures var row := Run(w, interval, steps).rows[code];
            && row.expiresAt == deadline
            && (row.status == L.Expired <==> w.rows[code].status == L.Expired || ExpiredBy(steps, code, deadline))
    decreases |steps|
  {
    if steps != [] {
      var w1 := Next(w, interval, steps[0]);
      StepKeepsInv(w, interval, steps[0]);
      StepRemembers(w, interval, steps[0], code);
      RunRemembers(w1, interval, steps[1..], code);
      ExpiredByFirst(steps, code, deadline);
      assert CodeOk(w, interval, code) && CodeOk(w1, interval, code);
      StepExpiresIff(w, interval, steps[0], code);
      ExpiredIff(w1, interval, steps[1..], code, deadline);
    }
  }

  lemma {:induction false} CreatedAt(w: World, interval: int, steps: seq<Step>, code: string) returns (k: int)
    requires CanRun(w, interval, steps) && code !in w.rows && code in Run(w, interval, steps).rows
    ensures Creates(steps, code, k)
    decreases |steps|
  {
    if steps[0].Create? && steps[0].code == code {
      k := 0;
    } else {
      k := CreatedAt(Next(w, interval, steps[0]), interval, steps[1..], code);
      k := k + 1;
    }
  }

  lemma {:induction false} SinceCreation(w: World, interval: int, steps: seq<Step>, code: string, k: int)
    requires Inv(w, interval) && CanRun(w, interval, steps) && Creates(steps, code, k)
    requires code in Run(w, interval, steps).rows && code in Run(w, interval, steps).records
    requires Run(w, interval, steps).records[code].decisions == []
    ensures var row := Run(w, interval, steps).rows[code];
            && row.expiresAt == steps[k].expiresAt
            && (row.status == L.Expired <==> ExpiredBy(steps[k + 1..], code, steps[k].expiresAt))
    decreases |steps|
  {
    StepKeepsInv(w, interval, steps[0]);
    if k == 0 {
      ExpiredIff(Next(w, interval, steps[0]), interval, steps[1..], code, steps[0].expiresAt);
    } else {
      SinceCreation(Next(w, interval, steps[0]), interval, steps[1..], code, k - 1);
      assert steps[1..][k..] == steps[k + 1..];
    }
  }

  /** Step `k` created the code with a deadline that is not over, and no expiry step has reached it. */
  predicate Open(steps: seq<Step>, code: string, k: int, now: int) {
    Creates(steps, code, k) && now <= steps[k].expiresAt && !ExpiredBy(steps[k + 1..], code, steps[k].expiresAt)
  }

  /** In every run, a code reads as pending exactly when it is in the table, it has not been decided, no expiry step
      has reached it, and the deadline it was created with is not over. */
  lemma PendingIff(interval: int, clock: int, steps: seq<Step>, code: string, now: int)
    requires CanRun(Start(clock), interval, steps)
    ensures var w := Run(Start(clock), interval, steps);
            L.PendingAt(View(w.rows), code, now)
            <==> && code in w.rows && code in w.records && w.records[code].decisions == []
                 && exists k :: Open(steps, code, k, now)
  {
    var w := Run(Start(clock), interval, steps);
    RunKeepsInv(Start(clock), interval, steps);
    assert CodeOk(w, interval, code);
    if code in w.rows && w.records[code].decisions == [] {
      forall k | Creates(steps, code, k)
        ensures L.PendingAt(View(w.rows), code, now) <==> Open(steps, code, k, now)
      {
        SinceCreation(Start(clock), interval, steps, code, k);
      }
      var k := CreatedAt(Start(clock), interval, steps, code);
    }
  }

  // ---------- one stamp per read, one delivery per stamp ----------

  /** What a poller does in a run: reads that found a token, stamps, deliveries. */
  function Reads(steps: seq<Step>, p: Poller): nat {
    if steps == [] then 0 else (if steps[0].ReadRow? && steps[0].poller == p then 1 else 0) + Reads(steps[1..], p)
  }

  function Stamps(steps: seq<Step>, p: Poller): nat {
    if steps == [] then 0 else (if steps[0].Stamp? && steps[0].poller == p then 1 else 0) + Stamps(steps[1..], p)
  }

  function Delivered(steps: seq<Step>, p: Poller): nat {
    if steps == [] then 0 else (if steps[0].Deliver? && steps[0].poller == p then 1 else 0) + Delivered(steps[1..], p)
  }

  function Reading(w: World, p: Poller): nat {
    if p in w.polls && w.polls[p].Read? then 1 else 0
  }

  function Clearing(w: World, p: Poller): nat {
    if p in w.polls && w.polls[p].Cleared? then 1 else 0
  }

  /** A refused stamp ends a poll: every stamp has a read of its own, and every delivery a stamp of its own. */
  lemma {:induction false} PollsInTurn(w: World, interval: int, steps: seq<Step>, p: Poller)
    requires CanRun(w, interval, steps)
    ensures var w' := Run(w, interval, steps);
            && Reading(w', p) + Stamps(steps, p) <= Reading(w, p) + Reads(steps, p)
            && Clearing(w', p) + Delivered(steps, p) <= Clearing(w, p) + Stamps(steps, p)
    decreases |steps|
  {
    if steps != [] {
      PollsInTurn(Next(w, interval, steps[0]), interval, steps[1..], p);
    }
  }

  // ---------- poll spacing ----------

  lemma {:induction false} SpacedFar(stamps: seq<int>, interval: int, i: nat, j: nat)
    requires Spaced(stamps, interval) && i <= j < |stamps|
    ensures stamps[i] + (j - i) * interval <= stamps[j]
    decreases j - i
  {
    if i < j {
      SpacedFar(stamps, interval, i, j - 1);
      assert (j - 1 - i) * interval + interval == (j - i) * interval;
    }
  }

  /** Whatever clocks the callers have, the accepted polls of one code that carry stamps in [from, to]
      number at most (to - from) / interval + 1. */
  lemma PollsSpaced(interval: int, clock: int, steps: seq<Step>, code: string, i: nat, j: nat, from: int, to: int)
    requires CanRun(Start(clock), interval, steps) && code in Run(Start(clock), interval, steps).records
    requires var stamps := Run(Start(clock), interval, steps).records[code].accepted;
             i <= j < |stamps| && from <= stamps[i] && stamps[j] <= to
    ensures (j - i) * interval <= to - from
  {
    RunKeepsInv(Start(clock), interval, steps);
    assert CodeOk(Run(Start(clock), interval, steps), interval, code);
    SpacedFar(Run(Start(clock), interval, steps).records[code].accepted, interval, i, j);
  }

  /** In every run, whether a poll is accepted depends on the accepted stamps alone, and only on the last. */
  lemma OnlyLastStampCounts(interval: int, clock: int, steps: seq<Step>, code: string, now: int)
    requires CanRun(Start(clock), interval, steps) && code in Run(Start(clock), interval, steps).rows
    ensures var w := Run(Start(clock), interval, steps);
            && code in w.records
            && var stamps := w.records[code].accepted;
               PollAccepted(w.rows, code, interval, now) <==> stamps == [] || stamps[|stamps| - 1] + interval <= now
  {
    RunKeepsInv(Start(clock), interval, steps);
    assert CodeOk(Run(Start(clock), interval, steps), interval, code);
  }

  // ---------- one-time use ----------

  /** The clock does not go back, and every poll is done within `patience` of its read. */
  predicate Prompt(w: World, step: Step, patience: int) {
    w.clock <= step.now && forall p :: p in w.polls ==> step.now <= w.polls[p].readAt + patience
  }

  predicate PromptRun(w: World, interval: int, steps: seq<Step>, patience: int)
    requires CanRun(w, interval, steps)
    decreases |steps|
  {
    steps == [] || (Prompt(w, steps[0], patience) && PromptRun(Next(w, interval, steps[0]), interval, steps[1..],
      patience))
  }

  /** The latest accepted stamp is `at` or later. */
  predicate LastAccepted(r: Record, at: int) {
    r.accepted != [] && at <= r.accepted[|r.accepted| - 1]
  }

  /** A poll after its stamp is the only one, nothing has been delivered, and later stamps are later. */
  ghost predicate ClearedAlone(w: World, p: Poller)
    requires p in w.polls && w.polls[p].code in w.records
  {
    w.polls[p].Cleared? ==>
      && w.records[w.polls[p].code].deliveries == []
      && w.polls[p].readAt <= w.polls[p].polledAt
      && LastAccepted(w.records[w.polls[p].code], w.polls[p].polledAt)
      && forall q :: q in w.polls && w.polls[q].Cleared? && w.polls[q].code == w.polls[p].code ==> q == p
  }

  /** After a delivery the row is not authorised, and whoever still believes so read it before. */
  ghost predicate DeliveredOnce(w: World, patience: int, code: string)
    requires code in w.records
  {
    var r := w.records[code];
    r.deliveries != [] ==>
      && |r.deliveries| == 1
      && r.deliveries[0].at <= r.deliveries[0].polledAt + patience
      && LastAccepted(r, r.deliveries[0].polledAt)
      && (code in w.rows ==> w.rows[code].status != L.Authorized)
      && forall q :: q in w.polls && w.polls[q].code == code ==> w.polls[q].readAt <= r.deliveries[0].at
  }

  ghost predicate Once(w: World, patience: int) {
    && (forall p :: p in w.polls ==> w.polls[p].code in w.records && w.polls[p].readAt <= w.clock && ClearedAlone(w, p))
    && (forall code :: code in w.records ==> DeliveredOnce(w, patience, code))
  }

  /** While a poll is under way or has delivered, no other prompt poll gets its stamp accepted. */
  lemma StampExcludes(w: World, interval: int, patience: int, poller: Poller, now: int)
    requires Inv(w, interval) && Once(w, patience) && 0 <= patience && 2 * patience < interval
    requires Enabled(w, Stamp(poller, now)) && Prompt(w, Stamp(poller, now), patience)
    requires PollAccepted(w.rows, w.polls[poller].code, interval, now)
    ensures w.records[w.polls[poller].code].deliveries == []
    ensures forall q :: q in w.polls && w.polls[q].Cleared? ==> w.polls[q].code != w.polls[poller].code
  {
    var code := w.polls[poller].code;
    assert CodeOk(w, interval, code) && DeliveredOnce(w, patience, code);
    forall q | q in w.polls && w.polls[q].Cleared?
      ensures w.polls[q].code != code
    {
      assert ClearedAlone(w, q);
    }
  }

  lemma StampKeepsCleared(w: World, interval: int, patience: int, step: Step, p: Poller)
    requires Inv(w, interval) && Once(w, patience) && 0 <= patience && 2 * patience < interval
    requires step.Stamp? && Enabled(w, step) && Prompt(w, step, patience)
    requires p in Next(w, interval, step).polls
    ensures var w' := Next(w, interval, step);
            w'.polls[p].code in w'.records && w'.polls[p].readAt <= w'.clock && ClearedAlone(w', p)
  {
    assert ClearedAlone(w, p) && CodeOk(w, interval, w.polls[p].code);
    if PollAccepted(w.rows, w.polls[step.poller].code, interval, step.now) {
      StampExcludes(w, interval, patience, step.poller, step.now);
    }
  }

  lemma StepKeepsCleared(w: World, interval: int, patience: int, step: Step, p: Poller)
    requires Inv(w, interval) && Once(w, patience) && 0 <= patience && 2 * patience < interval
    requires Enabled(w, step) && Prompt(w, step, patience)
    requires p in Next(w, interval, step).polls
    ensures var w' := Next(w, interval, step);
            w'.polls[p].code in w'.records && w'.polls[p].readAt <= w'.clock && ClearedAlone(w', p)
  {
    if step.Stamp? {
      StampKeepsCleared(w, interval, patience, step, p);
    } else if p in w.polls {
      assert ClearedAlone(w, p);
      assert CodeOk(w, interval, w.polls[p].code);
    } else {
      assert CodeOk(w, interval, step.code);
    }
  }

  lemma StepKeepsDelivered(w: World, interval: int, patience: int, step: Step, code: string)
    requires Inv(w, interval) && Once(w, patience) && 0 <= patience && 2 * patience < interval
    requires Enabled(w, step) && Prompt(w, step, patience)
    requires code in Next(w, interval, step).records
    ensures DeliveredOnce(Next(w, interval, step), patience, code)
  {
    assert CodeOk(w, interval, code);
    if code in w.records {
      if step.Deliver? {
        DeliverKeepsDelivered(w, interval, patience, step.poller, step.now, code);
      } else if step.Stamp? {
        StampKeepsDelivered(w, interval, patience, step.poller, step.now, code);
      } else {
        OtherKeepsDelivered(w, interval, patience, step, code);
      }
    }
  }

  lemma OtherKeepsDelivered(w: World, interval: int, patience: int, step: Step, code: string)
    requires Inv(w, interval) && Once(w, patience) && 0 <= patience && 2 * patience < interval
    requires code in w.records && !step.Deliver? && !step.Stamp?
    requires Enabled(w, step) && Prompt(w, step, patience) && code in Next(w, interval, step).records
    ensures DeliveredOnce(Next(w, interval, step), patience, code)
  {
    assert CodeOk(w, interval, code) && DeliveredOnce(w, patience, code);
  }

  lemma DeliverKeepsDelivered(w: World, interval: int, patience: int, poller: Poller, now: int, code: string)
    requires Inv(w, interval) && Once(w, patience) && code in w.records
    requires Enabled(w, Deliver(poller, now)) && Prompt(w, Deliver(poller, now), patience)
    ensures DeliveredOnce(Next(w, interval, Deliver(poller, now)), patience, code)
  {
    assert DeliveredOnce(w, patience, code) && ClearedAlone(w, poller);
  }

  lemma StampKeepsDelivered(w: World, interval: int, patience: int, poller: Poller, now: int, code: string)
    requires Inv(w, interval) && Once(w, patience) && 0 <= patience && 2 * patience < interval && code in w.records
    requires Enabled(w, Stamp(poller, now)) && Prompt(w, Stamp(poller, now), patience)
    ensures DeliveredOnce(Next(w, interval, Stamp(poller, now)), patience, code)
  {
    assert DeliveredOnce(w, patience, code);
    if w.polls[poller].code == code && PollAccepted(w.rows, code, interval, now) {
      StampExcludes(w, interval, patience, poller, now);
    }
  }

  lemma StepKeepsOnce(w: World, interval: int, patience: int, step: Step)
    requires Inv(w, interval) && Once(w, patience) && 0 <= patience && 2 * patience < interval
    requires Enabled(w, step) && Prompt(w, step, patience)
    ensures Once(Next(w, interval, step), patience)
  {
    var w' := Next(w, interval, step);
    forall p | p in w'.polls
      ensures w'.polls[p].code in w'.records && w'.polls[p].readAt <= w'.clock && ClearedAlone(w', p)
    {
      StepKeepsCleared(w, interval, patience, step, p);
    }
    forall code | code in w'.records ensures DeliveredOnce(w', patience, code) {
      StepKeepsDelivered(w, interval, patience, step, code);
    }
  }

  lemma {:induction false} RunKeepsOnce(w: World, interval: int, patience: int, steps: seq<Step>)
    requires Inv(w, interval) && Once(w, patience) && 0 <= patience && 2 * patience < interval
    requires CanRun(w, interval, steps) && PromptRun(w, interval, steps, patience)
    ensures Once(Run(w, interval, steps), patience)
    decreases |steps|
  {
    if steps != [] {
      StepKeepsInv(w, interval, steps[0]);
      StepKeepsOnce(w, interval, patience, steps[0]);
      RunKeepsOnce(Next(w, interval, steps[0]), interval, patience, steps[1..]);
    }
  }

  /** When every poll finishes in less than half the polling interval, a token is handed out once,
      although MarkAsConsumed has no guard. */
  lemma DeliveredAtMostOnce(interval: int, patience: int, clock: int, steps: seq<Step>, code: string)
    requires 0 <= patience && 2 * patience < interval
    requires CanRun(Start(clock), interval, steps) && PromptRun(Start(clock), interval, steps, patience)
    requires code in Run(Start(clock), interval, steps).records
    ensures |Run(Start(clock), interval, steps).records[code].deliveries| <= 1
  {
    RunKeepsOnce(Start(clock), interval, patience, steps);
    assert DeliveredOnce(Run(Start(clock), interval, steps), patience, code);
  }

  // ---------- a slower poll is handed the token again ----------

  lemma Cons(w: World, interval: int, patience: int, step: Step, rest: seq<Step>)
    requires Enabled(w, step) && CanRun(Next(w, interval, step), interval, rest)
    requires Prompt(w, step, patience) && PromptRun(Next(w, interval, step), interval, rest, patience)
    ensures CanRun(w, interval, [step] + rest) && PromptRun(w, interval, [step] + rest, patience)
    ensures Run(w, interval, [step] + rest) == Run(Next(w, interval, step), interval, rest)
  {
    assert ([step] + rest)[1..] == rest;
  }

  const UNSET := Grant(None, "", None, "", None, "")
  const ISSUED := Grant(None, "", None, "", None, "t")

  function ReadyRow(userCode: string, expiresAt: int): DeviceCode {
    DeviceCode(userCode, L.Authorized, ISSUED, expiresAt, 0, None, Some(0))
  }

  /** A code authorised at time 0, nobody polling. */
  function Ready(code: string, userCode: string, expiresAt: int): World {
    World(map[code := ReadyRow(userCode, expiresAt)], map[code := Record(expiresAt, [Decided(ISSUED, true)], [], [])],
      map[], 0)
  }

  lemma ReachReady(interval: int, patience: int, code: string, userCode: string, expiresAt: nat, rest: seq<Step>)
    returns (steps: seq<Step>)
    requires CanRun(Ready(code, userCode, expiresAt), interval, rest)
    requires PromptRun(Ready(code, userCode, expiresAt), interval, rest, patience)
    ensures CanRun(Start(0), interval, steps) && PromptRun(Start(0), interval, steps, patience)
    ensures Run(Start(0), interval, steps) == Run(Ready(code, userCode, expiresAt), interval, rest)
  {
    var create, authorize := Create(code, userCode, UNSET, expiresAt, 0), Authorize(userCode, ISSUED, true, 0);
    var w1 := Next(Start(0), interval, create);
    assert Decidable(w1.rows[code], userCode);
    var w2 := Next(w1, interval, authorize);
    assert w2.rows == Ready(code, userCode, expiresAt).rows;
    assert w2.records[code].decisions == [] + [Decided(ISSUED, true)] == [Decided(ISSUED, true)];
    assert w2.records == Ready(code, userCode, expiresAt).records;
    Cons(w1, interval, patience, authorize, rest);
    Cons(Start(0), interval, patience, create, [authorize] + rest);
    steps := [create] + ([authorize] + rest);
  }

  /** A poll that has read the token stamps and delivers, alone. */
  lemma Delivers(w: World, interval: int, patience: int, p: Poller, code: string, token: string, readAt: int, now: int)
    returns (steps: seq<Step>)
    requires w.polls == map[p := Read(code, token, readAt)] && code in w.records && w.clock <= now <= readAt + patience
    requires PollAccepted(w.rows, code, interval, now)
    ensures CanRun(w, interval, steps) && PromptRun(w, interval, steps, patience)
    ensures var w' := Run(w, interval, steps);
            code in w'.records && |w'.records[code].deliveries| == |w.records[code].deliveries| + 1
  {
    var w1 := Next(w, interval, Stamp(p, now));
    assert w1.polls == map[p := Cleared(code, token, readAt, now)];
    Cons(w1, interval, patience, Deliver(p, now), []);
    Cons(w, interval, patience, Stamp(p, now), [Deliver(p, now)] + []);
    steps := [Stamp(p, now)] + ([Deliver(p, now)] + []);
  }

  /** One poll has stamped and not delivered. */
  function OneCleared(code: string, expiresAt: int): World {
    World(map[code := ReadyRow("", expiresAt).(lastPolledAt := Some(0))],
          map[code := Record(expiresAt, [Decided(ISSUED, true)], [0], [])], map[0 := Cleared(code, "t", 0, 0)], 0)
  }

  lemma ReachOneCleared(interval: int, patience: nat, code: string, rest: seq<Step>) returns (steps: seq<Step>)
    requires CanRun(OneCleared(code, patience), interval, rest)
             && PromptRun(OneCleared(code, patience), interval, rest, patience)
    ensures var w := Ready(code, "", patience);
            && CanRun(w, interval, steps) && PromptRun(w, interval, steps, patience)
            && Run(w, interval, steps) == Run(OneCleared(code, patience), interval, rest)
  {
    var w := Ready(code, "", patience);
    var w1 := Next(w, interval, ReadRow(0, code, 0));
    assert w1.polls == map[0 := Read(code, "t", 0)];
    assert [] + [0] == [0];
    assert Next(w1, interval, Stamp(0, 0)) == OneCleared(code, patience);
    Cons(w1, interval, patience, Stamp(0, 0), rest);
    Cons(w, interval, patience, ReadRow(0, code, 0), [Stamp(0, 0)] + rest);
    steps := [ReadRow(0, code, 0)] + ([Stamp(0, 0)] + rest);
  }

  /** From there: it delivers as late as it may; another poll reads just before that delivery, and
      stamps and delivers as late as it may. */
  lemma TwoDeliveries(interval: int, patience: nat, code: string) returns (steps: seq<Step>)
    requires interval <= 2 * patience
    ensures var w := OneCleared(code, patience);
            && CanRun(w, interval, steps) && PromptRun(w, interval, steps, patience)
            && code in Run(w, interval, steps).records && |Run(w, interval, steps).records[code].deliveries| == 2
  {
    var w, late := OneCleared(code, patience), patience;
    var w1 := Next(w, interval, ReadRow(1, code, late));
    assert w1.polls == w.polls[1 := Read(code, "t", late)];
    var w2 := Next(w1, interval, Deliver(0, late));
    assert w2.polls == map[1 := Read(code, "t", late)] && w2.rows[code].lastPolledAt == Some(0);
    steps := Delivers(w2, interval, patience, 1, code, "t", late, 2 * patience);
    Cons(w1, interval, patience, Deliver(0, late), steps);
    steps := [Deliver(0, late)] + steps;
    Cons(w, interval, patience, ReadRow(1, code, late), steps);
    steps := [ReadRow(1, code, late)] + steps;
  }

  /** When polls may take half the interval or longer, some run hands the token out twice. */
  lemma SlowPollDeliversAgain(interval: int, patience: nat, code: string) returns (steps: seq<Step>)
    requires interval <= 2 * patience
    ensures CanRun(Start(0), interval, steps) && PromptRun(Start(0), interval, steps, patience)
    ensures code in Run(Start(0), interval, steps).records
            && |Run(Start(0), interval, steps).records[code].deliveries| == 2
  {
    steps := TwoDeliveries(interval, patience, code);
    steps := ReachOneCleared(interval, patience, code, steps);
    steps := ReachReady(interval, patience, code, "", patience, steps);
  }

  ghost predicate OneTime(interval: int, patience: int, clock: int, steps: seq<Step>, code: string) {
    CanRun(Start(clock), interval, steps) && PromptRun(Start(clock), interval, steps, patience)
    && code in Run(Start(clock), interval, steps).records
    ==> |Run(Start(clock), interval, steps).records[code].deliveries| <= 1
  }

  /** Tokens are handed out once in every run exactly when polls take less than half the interval. */
  lemma DeliveredOnceIff(interval: int, patience: nat)
    ensures (forall clock, steps, code :: OneTime(interval, patience, clock, steps, code)) <==> 2 * patience < interval
  {
    if 2 * patience < interval {
      forall clock, steps, code ensures OneTime(interval, patience, clock, steps, code) {
        if !OneTime(interval, patience, clock, steps, code) {
          DeliveredAtMostOnce(interval, patience, clock, steps, code);
        }
      }
    } else {
      var steps := SlowPollDeliversAgain(interval, patience, "");
      assert !OneTime(interval, patience, 0, steps, "");
    }
  }
}
