/** Every interleaving of responders, pollers and sweeps over the CIBA table.

    A poller that wins approved -> consumed owns the request until it either mints the token or,
    when minting fails, puts the row back to approved (services/ciba_auth_service.go:240-295).
    It may also die in between.  Each SQL statement is one step; reads are advisory and the
    conditional updates are the authority, so a step may follow its read by any delay. */
module CibaProtocol {
  import opened Common
  import L = Lifecycle
  import opened Ciba

  type Poller = nat

  datatype Claim = Claim(id: string, readAt: int)
  datatype Event = Responded(id: string, approved: bool) | Minted(id: string)

  datatype World = World(
    rows: Requests,
    used: set<string>,             // every auth_req_id ever issued
    claims: map<Poller, Claim>,    // pollers between consume and mint or revert
    events: seq<Event>,            // winning responses and mints, in order
    stranded: set<string>)         // approvals whose owner died, or found no row to put back

  datatype Step =
    | Create(id: string, expiresAt: int, now: int)
    | Respond(id: string, approved: bool, biometric: bool, now: int)
    | ExpireOne(id: string, now: int)
    | Poll(poller: Poller, id: string, readAt: int, now: int)
    | Mint(poller: Poller, now: int)
    | Revert(poller: Poller, biometric: bool, now: int)
    | Die(poller: Poller, now: int)
    | ExpirySweep(now: int)
    | DeleteSweep(olderThan: int, now: int)

  function Start(): World {
    World(map[], {}, map[], [], {})
  }

  predicate Enabled(w: World, step: Step) {
    match step
    case Create(id, _, _) => id !in w.used
    case ExpireOne(id, now) => id in w.rows ==> w.rows[id].expiresAt < now
    case Poll(poller, id, readAt, now) => poller !in w.claims && (id in w.rows ==> readAt <= w.rows[id].expiresAt)
    case Mint(poller, _) => poller in w.claims
    case Revert(poller, _, _) => poller in w.claims
    case Die(poller, _) => poller in w.claims
    case _ => true
  }

  function Next(w: World, step: Step): World
    requires Enabled(w, step)
  {
    match step
    case Create(id, expiresAt, now) =>
      w.(rows := w.rows[id := Request(L.Pending, false, expiresAt, now, None)], used := w.used + {id})
    case Respond(id, approved, biometric, now) =>
      w.(rows := Cas(w.rows, id, L.Pending, Verdict(approved), biometric, now),
         events := if Matches(w.rows, id, L.Pending) then w.events + [Responded(id, approved)] else w.events)
    case ExpireOne(id, now) => w.(rows := Cas(w.rows, id, L.Pending, L.Expired, false, now))
    case Poll(poller, id, readAt, now) =>
      w.(rows := Consume(w.rows, id),
         claims := if Matches(w.rows, id, L.Approved) then w.claims[poller := Claim(id, readAt)] else w.claims)
    case Mint(poller, now) =>
      w.(claims := w.claims - {poller}, events := w.events + [Minted(w.claims[poller].id)])
    case Revert(poller, biometric, now) =>
      var id := w.claims[poller].id;
      w.(rows := Cas(w.rows, id, L.Consumed, L.Approved, biometric, now), claims := w.claims - {poller},
         stranded := if Matches(w.rows, id, L.Consumed) then w.stranded else w.stranded + {id})
    case Die(poller, now) => w.(claims := w.claims - {poller}, stranded := w.stranded + {w.claims[poller].id})
    case ExpirySweep(now) => w.(rows := ExpireOld(w.rows, now))
    case DeleteSweep(olderThan, now) => w.(rows := DeleteOld(w.rows, now - olderThan))
  }

  predicate CanRun(w: World, steps: seq<Step>)
    decreases |steps|
  {
    steps == [] || (Enabled(w, steps[0]) && CanRun(Next(w, steps[0]), steps[1..]))
  }

  function Run(w: World, steps: seq<Step>): World
    requires CanRun(w, steps)
    decreases |steps|
  {
    if steps == [] then w else Run(Next(w, steps[0]), steps[1..])
  }

  // ---------- what happened to one request ----------

  function Responses(events: seq<Event>, id: string): seq<bool> {
    if events == [] then [] else
      var last := events[|events| - 1];
      Responses(events[..|events| - 1], id) + if last.Responded? && last.id == id then [last.approved] else []
  }

  function Mints(events: seq<Event>, id: string): nat {
    if events == [] then 0 else
      var last := events[|events| - 1];
      Mints(events[..|events| - 1], id) + if last.Minted? && last.id == id then 1 else 0
  }

  function Owners(w: World, id: string): set<Poller> {
    set p | p in w.claims && w.claims[p].id == id
  }

  lemma EventSnoc(events: seq<Event>, e: Event, id: string)
    ensures Responses(events + [e], id) == Responses(events, id) + if e.Responded? && e.id == id then [e.approved]
            else []
    ensures Mints(events + [e], id) == Mints(events, id) + if e.Minted? && e.id == id then 1 else 0
  {
    assert (events + [e])[..|events|] == events;
  }

  // ---------- the invariant ----------

  /** Nobody has answered and nobody owns the request. */
  ghost predicate Untouched(w: World, id: string) {
    Responses(w.events, id) == [] && Mints(w.events, id) == 0 && Owners(w, id) == {}
  }

  /** The one winning answer was an approval; at most one poller owns it or has minted. */
  ghost predicate Taken(w: World, id: string) {
    && Responses(w.events, id) == [true]
    && |Owners(w, id)| + Mints(w.events, id) <= 1
    && (Owners(w, id) == {} && Mints(w.events, id) == 0 ==> id in w.stranded)
  }

  ghost predicate Answered(w: World, id: string, approved: bool) {
    Responses(w.events, id) == [approved] && Mints(w.events, id) == 0 && Owners(w, id) == {}
  }

  ghost predicate Ok(w: World, id: string) {
    if id in w.rows then
      && id in w.used
      && match w.rows[id].status
         case Pending => Untouched(w, id)
         case Expired => Untouched(w, id)
         case Approved => Answered(w, id, true)
         case Denied => Answered(w, id, false)
         case Consumed => Taken(w, id)
         case _ => false
    else if id in w.used then Untouched(w, id) || Answered(w, id, false) || Taken(w, id)
    else Untouched(w, id)
  }

  ghost predicate Inv(w: World) {
    forall id :: Ok(w, id)
  }

  /** Nothing that concerns the request has changed. */
  ghost predicate SameFor(w: World, w': World, id: string) {
    && (id in w.rows <==> id in w'.rows) && (id in w.rows ==> w'.rows[id] == w.rows[id])
    && (id in w.used <==> id in w'.used) && (id in w.stranded ==> id in w'.stranded)
    && Responses(w'.events, id) == Responses(w.events, id) && Mints(w'.events, id) == Mints(w.events, id)
    && Owners(w', id) == Owners(w, id)
  }

  lemma SameKeepsOk(w: World, w': World, id: string)
    requires Ok(w, id) && SameFor(w, w', id)
    ensures Ok(w', id)
  {
  }

  /** Steps that concern the rows only. */
  lemma RowStepKeepsOk(w: World, step: Step, id: string)
    requires Ok(w, id) && Enabled(w, step)
    requires step.Create? || step.ExpireOne? || step.ExpirySweep? || step.DeleteSweep?
    ensures Ok(Next(w, step), id)
  {
    assert Owners(Next(w, step), id) == Owners(w, id);
  }

  lemma RespondKeepsOk(w: World, step: Step, id: string)
    requires Ok(w, id) && Enabled(w, step) && step.Respond?
    ensures Ok(Next(w, step), id)
  {
    var w' := Next(w, step);
    assert Owners(w', id) == Owners(w, id);
    EventSnoc(w.events, Responded(step.id, step.approved), id);
    if step.id == id && Matches(w.rows, id, L.Pending) {
      assert Responses(w'.events, id) == [step.approved] && Mints(w'.events, id) == 0;
      assert Answered(w', id, step.approved);
    } else {
      SameKeepsOk(w, w', id);
    }
  }

  lemma PollKeepsOk(w: World, step: Step, id: string)
    requires Ok(w, id) && Enabled(w, step) && step.Poll?
    ensures Ok(Next(w, step), id)
  {
    if step.id == id && Matches(w.rows, id, L.Approved) {
      assert Owners(Next(w, step), id) == {step.poller};
    } else {
      assert Owners(Next(w, step), id) == Owners(w, id);
    }
  }

  /** Whatever its owner does, a request with an owner was approved and is in nobody else's hands. */
  lemma OwnerAlone(w: World, poller: Poller, id: string)
    requires Ok(w, id) && poller in w.claims && w.claims[poller].id == id
    ensures Taken(w, id) && Owners(w, id) == {poller} && Mints(w.events, id) == 0
    ensures id in w.rows ==> w.rows[id].status == L.Consumed
  {
    assert poller in Owners(w, id);
    assert Owners(w, id) == (Owners(w, id) - {poller}) + {poller};
    assert |Owners(w, id)| == |Owners(w, id) - {poller}| + 1;
  }

  lemma OwnerStepKeepsOk(w: World, step: Step, id: string)
    requires Ok(w, id) && Enabled(w, step) && (step.Mint? || step.Revert? || step.Die?)
    ensures Ok(Next(w, step), id)
  {
    var w' := Next(w, step);
    EventSnoc(w.events, Minted(w.claims[step.poller].id), id);
    if w.claims[step.poller].id == id {
      OwnerAlone(w, step.poller, id);
      assert Owners(w', id) == {};
      assert Responses(w'.events, id) == [true];
      if step.Revert? && Matches(w.rows, id, L.Consumed) {
        assert Answered(w', id, true);
      } else {
        assert Taken(w', id);
      }
    } else {
      assert Owners(w', id) == Owners(w, id);
      SameKeepsOk(w, w', id);
    }
  }

  lemma StepKeepsInv(w: World, step: Step)
    requires Inv(w) && Enabled(w, step)
    ensures Inv(Next(w, step))
  {
    forall id
      ensures Ok(Next(w, step), id)
    {
      assert Ok(w, id);
      match step
      case Respond(_, _, _, _) => RespondKeepsOk(w, step, id);
      case Poll(_, _, _, _) => PollKeepsOk(w, step, id);
      case Mint(_, _) => OwnerStepKeepsOk(w, step, id);
      case Revert(_, _, _) => OwnerStepKeepsOk(w, step, id);
      case Die(_, _) => OwnerStepKeepsOk(w, step, id);
      case _ => RowStepKeepsOk(w, step, id);
    }
  }

  lemma {:induction false} RunKeepsInv(w: World, steps: seq<Step>)
    requires Inv(w) && CanRun(w, steps)
    ensures Inv(Run(w, steps))
    decreases |steps|
  {
    if steps != [] {
      StepKeepsInv(w, steps[0]);
      RunKeepsInv(Next(w, steps[0]), steps[1..]);
    }
  }

  /** In every interleaving a request has at most one winning answer and at most one token, and a
      token is minted only for a request whose one winning answer was an approval. */
  lemma AtMostOneToken(steps: seq<Step>, id: string)
    requires CanRun(Start(), steps)
    ensures var w := Run(Start(), steps);
            && |Responses(w.events, id)| <= 1
            && Mints(w.events, id) <= 1
            && (Mints(w.events, id) == 1 ==> Responses(w.events, id) == [true])
            && (Mints(w.events, id) == 1 && id in w.rows ==> w.rows[id].status == L.Consumed)
  {
    RunKeepsInv(Start(), steps);
    assert Ok(Run(Start(), steps), id);
  }

  /** An approval that has not become a token is still there to be claimed, or in the hands of one
      poller, or that poller died or found the row deleted. */
  lemma ApprovalNotLost(steps: seq<Step>, id: string)
    requires CanRun(Start(), steps)
    ensures var w := Run(Start(), steps);
            Responses(w.events, id) == [true] && Mints(w.events, id) == 0 ==>
              Matches(w.rows, id, L.Approved) || Owners(w, id) != {} || id in w.stranded
  {
    RunKeepsInv(Start(), steps);
    assert Ok(Run(Start(), steps), id);
  }

  // ---------- what IsPending tells a reader ----------

  /** An expiry step that reaches a pending request with this deadline. */
  predicate Expires(step: Step, id: string, deadline: int) {
    (step.ExpirySweep? || (step.ExpireOne? && step.id == id)) && deadline < step.now
  }

  predicate ExpiredBy(steps: seq<Step>, id: string, deadline: int) {
    exists i :: 0 <= i < |steps| && Expires(steps[i], id, deadline)
  }

  lemma ExpiredByFirst(steps: seq<Step>, id: string, deadline: int)
    requires steps != []
    ensures ExpiredBy(steps, id, deadline) <==> Expires(steps[0], id, deadline) || ExpiredBy(steps[1..], id, deadline)
  {
    if i :| 0 < i < |steps| && Expires(steps[i], id, deadline) {
      assert steps[1..][i - 1] == steps[i];
    }
  }

  predicate Creates(steps: seq<Step>, id: string, k: int) {
    0 <= k < |steps| && steps[k].Create? && steps[k].id == id
  }

  lemma {:induction false} GoneStaysGone(w: World, steps: seq<Step>, id: string)
    requires CanRun(w, steps) && id in w.used && id !in w.rows
    ensures id !in Run(w, steps).rows
    decreases |steps|
  {
    if steps != [] {
      GoneStaysGone(Next(w, steps[0]), steps[1..], id);
    }
  }

  lemma {:induction false} AnswersStay(w: World, steps: seq<Step>, id: string)
    requires CanRun(w, steps) && Responses(w.events, id) != []
    ensures Responses(Run(w, steps).events, id) != []
    decreases |steps|
  {
    if steps != [] {
      var w1 := Next(w, steps[0]);
      if |w1.events| > |w.events| {
        EventSnoc(w.events, w1.events[|w.events|], id);
        assert w1.events == w.events + [w1.events[|w.events|]];
      }
      AnswersStay(w1, steps[1..], id);
    }
  }

  lemma StepExpiresIff(w: World, step: Step, id: string)
    requires Ok(w, id) && Enabled(w, step) && Ok(Next(w, step), id)
    requires id in w.rows && id in Next(w, step).rows && Responses(Next(w, step).events, id) == []
    ensures Next(w, step).rows[id].status == L.Expired
            <==> w.rows[id].status == L.Expired || Expires(step, id, w.rows[id].expiresAt)
  {
    if step.Respond? {
      EventSnoc(w.events, Responded(step.id, step.approved), id);
    } else if step.Mint? {
      EventSnoc(w.events, Minted(w.claims[step.poller].id), id);
    }
  }

  /** While nobody has answered, a row has expired exactly when an expiry step has reached it. */
  lemma {:induction false} ExpiredIff(w: World, steps: seq<Step>, id: string, deadline: int)
    requires Inv(w) && CanRun(w, steps) && id in w.rows && id in w.used && w.rows[id].expiresAt == deadline
    ensures var w' := Run(w, steps);
            id in w'.rows ==>
              && w'.rows[id].expiresAt == deadline
              && (Responses(w'.events, id) == [] ==>
                    (w'.rows[id].status == L.Expired
                     <==> w.rows[id].status == L.Expired || ExpiredBy(steps, id, deadline)))
    decreases |steps|
  {
    if steps != [] {
      var w1 := Next(w, steps[0]);
      StepKeepsInv(w, steps[0]);
      ExpiredByFirst(steps, id, deadline);
      assert Ok(w, id) && Ok(w1, id);
      if id !in w1.rows {
        GoneStaysGone(w1, steps[1..], id);
      } else {
        ExpiredIff(w1, steps[1..], id, deadline);
        if Responses(w1.events, id) != [] {
          AnswersStay(w1, steps[1..], id);
        } else {
          StepExpiresIff(w, steps[0], id);
        }
      }
    }
  }

  lemma {:induction false} CreatedAt(w: World, steps: seq<Step>, id: string) returns (k: int)
    requires CanRun(w, steps) && id !in w.rows && id in Run(w, steps).rows
    ensures Creates(steps, id, k)
    decreases |steps|
  {
    if steps[0].Create? && steps[0].id == id {
      k := 0;
    } else {
      k := CreatedAt(Next(w, steps[0]), steps[1..], id);
      k := k + 1;
    }
  }

  lemma {:induction false} SinceCreation(w: World, steps: seq<Step>, id: string, k: int)
    requires Inv(w) && CanRun(w, steps) && Creates(steps, id, k)
    ensures var w', deadline := Run(w, steps), steps[k].expiresAt;
            id in w'.rows ==>
              && w'.rows[id].expiresAt == deadline
              && (Responses(w'.events, id) == [] ==>
                    (w'.rows[id].status == L.Expired <==> ExpiredBy(steps[k + 1..], id, deadline)))
    decreases |steps|
  {
    StepKeepsInv(w, steps[0]);
    if k == 0 {
      ExpiredIff(Next(w, steps[0]), steps[1..], id, steps[0].expiresAt);
    } else {
      SinceCreation(Next(w, steps[0]), steps[1..], id, k - 1);
      assert steps[1..][k..] == steps[k + 1..];
    }
  }

  /** Step `k` created the request with a deadline that is not over, and no expiry step has reached it. */
  predicate Open(steps: seq<Step>, id: string, k: int, now: int) {
    Creates(steps, id, k) && now <= steps[k].expiresAt && !ExpiredBy(steps[k + 1..], id, steps[k].expiresAt)
  }

  /** In every run, a request reads as pending exactly when it is in the table, nobody has won an answer, no expiry
      step has reached it, and the deadline it was created with is not over. */
  lemma PendingIff(steps: seq<Step>, id: string, now: int)
    requires CanRun(Start(), steps)
    ensures var w := Run(Start(), steps);
            L.PendingAt(View(w.rows), id, now)
            <==> id in w.rows && Responses(w.events, id) == [] && exists k :: Open(steps, id, k, now)
  {
    var w := Run(Start(), steps);
    RunKeepsInv(Start(), steps);
    assert Ok(w, id);
    forall k | Creates(steps, id, k)
      ensures id in w.rows && Responses(w.events, id) == [] ==>
                (L.PendingAt(View(w.rows), id, now) <==> Open(steps, id, k, now))
    {
      SinceCreation(Start(), steps, id, k);
    }
    if id in w.rows {
      var k := CreatedAt(Start(), steps, id);
    }
  }

  /** No sweep touches an approved row. */
  lemma SweepsSpareApproved(rows: Requests, id: string, now: int, cutoff: int)
    requires Matches(rows, id, L.Approved)
    ensures id in ExpireOld(rows, now) && ExpireOld(rows, now)[id] == rows[id]
    ensures id in DeleteOld(rows, cutoff) && DeleteOld(rows, cutoff)[id] == rows[id]
  {
  }

  // ---------- when deletion cannot strand an approval ----------

  /** Requests live at most `life`, finished rows are kept at least `keep`, every poll finishes
      within `patience` of its read, and no poller dies. */
  predicate Prompt(w: World, step: Step, life: int, patience: int, keep: int) {
    && (forall p :: p in w.claims ==> step.now <= w.claims[p].readAt + patience)
    && (step.Create? ==> step.expiresAt <= step.now + life)
    && (step.DeleteSweep? ==> keep <= step.olderThan)
    && !step.Die?
  }

  predicate PromptRun(w: World, steps: seq<Step>, life: int, patience: int, keep: int)
    requires CanRun(w, steps)
    decreases |steps|
  {
    steps == [] || (Prompt(w, steps[0], life, patience, keep)
      && PromptRun(Next(w, steps[0]), steps[1..], life, patience, keep))
  }

  /** The row of a claimed request stays, and nothing is stranded. */
  ghost predicate Kept(w: World, life: int) {
    && w.stranded == {}
    && (forall id :: id in w.rows ==> w.rows[id].expiresAt <= w.rows[id].createdAt + life)
    && (forall p :: p in w.claims ==> KeptClaim(w, w.claims[p]))
  }

  predicate KeptClaim(w: World, claim: Claim) {
    Matches(w.rows, claim.id, L.Consumed) && claim.readAt <= w.rows[claim.id].expiresAt
  }

  lemma StepKeepsKept(w: World, step: Step, life: int, patience: int, keep: int)
    requires Inv(w) && Kept(w, life) && Enabled(w, step) && Prompt(w, step, life, patience, keep)
             && life + patience <= keep
    ensures Kept(Next(w, step), life)
  {
    var w' := Next(w, step);
    forall p | p in w'.claims
      ensures KeptClaim(w', w'.claims[p])
    {
      if p in w.claims {
        assert KeptClaim(w, w.claims[p]);
        assert Ok(w, w.claims[p].id);
        assert forall q :: q in w.claims && w.claims[q].id == w.claims[p].id ==> q in Owners(w, w.claims[p].id);
        OwnerAlone(w, p, w.claims[p].id);
      }
    }
  }

  lemma {:induction false} RunKeepsKept(w: World, steps: seq<Step>, life: int, patience: int, keep: int)
    requires Inv(w) && Kept(w, life) && CanRun(w, steps) && PromptRun(w, steps, life, patience, keep)
             && life + patience <= keep
    ensures Kept(Run(w, steps), life)
    decreases |steps|
  {
    if steps != [] {
      StepKeepsInv(w, steps[0]);
      StepKeepsKept(w, steps[0], life, patience, keep);
      RunKeepsKept(Next(w, steps[0]), steps[1..], life, patience, keep);
    }
  }

  /** An approval without a token is claimable or in the hands of exactly one poller. */
  ghost predicate InGoodHands(w: World, id: string) {
    Responses(w.events, id) == [true] && Mints(w.events, id) == 0 ==>
      Matches(w.rows, id, L.Approved) || |Owners(w, id)| == 1
  }

  /** So it is in every such run that keeps rows long enough.  (The services use a life of 300
      seconds and keep rows for 24 hours.) */
  lemma NoApprovalStranded(steps: seq<Step>, id: string, life: int, patience: int, keep: int)
    requires CanRun(Start(), steps) && PromptRun(Start(), steps, life, patience, keep) && life + patience <= keep
    ensures InGoodHands(Run(Start(), steps), id)
  {
    RunKeepsInv(Start(), steps);
    RunKeepsKept(Start(), steps, life, patience, keep);
    assert Ok(Run(Start(), steps), id);
  }

  lemma Cons(w: World, step: Step, rest: seq<Step>, life: int, patience: int, keep: int)
    requires Enabled(w, step) && CanRun(Next(w, step), rest)
    requires Prompt(w, step, life, patience, keep) && PromptRun(Next(w, step), rest, life, patience, keep)
    ensures CanRun(w, [step] + rest) && PromptRun(w, [step] + rest, life, patience, keep)
    ensures Run(w, [step] + rest) == Run(Next(w, step), rest)
  {
    assert ([step] + rest)[1..] == rest;
  }

  lemma LostApproval(w: World, id: string)
    requires w.rows == map[] && w.claims == map[] && w.events == [Responded(id, true)]
    ensures !InGoodHands(w, id)
  {
    assert w.events == [] + [Responded(id, true)];
    EventSnoc([], Responded(id, true), id);
  }

  /** A request that lives `life` was approved and claimed at the last moment. */
  function Claimed(id: string, life: int): World {
    World(map[id := Request(L.Consumed, true, life, 0, Some(life))], {id}, map[0 := Claim(id, life)],
      [Responded(id, true)], {})
  }

  lemma ReachClaimed(id: string, life: int, patience: int, keep: int, rest: seq<Step>) returns (steps: seq<Step>)
    requires CanRun(Claimed(id, life), rest) && PromptRun(Claimed(id, life), rest, life, patience, keep)
    ensures CanRun(Start(), steps) && PromptRun(Start(), steps, life, patience, keep)
    ensures Run(Start(), steps) == Run(Claimed(id, life), rest)
  {
    var create, respond, poll := Create(id, life, 0), Respond(id, true, true, life), Poll(0, id, life, life);
    var w1 := Next(Start(), create);
    var w2 := Next(w1, respond);
    assert w2.events == [] + [Responded(id, true)] == [Responded(id, true)];
    assert Next(w2, poll) == Claimed(id, life);
    Cons(w2, poll, rest, life, patience, keep);
    Cons(w1, respond, [poll] + rest, life, patience, keep);
    Cons(Start(), create, [respond] + ([poll] + rest), life, patience, keep);
    steps := [create] + ([respond] + ([poll] + rest));
  }

  /** With a shorter retention some such run deletes a row under its owner, who cannot put it back. */
  lemma EarlyDeletionLosesApproval(id: string, life: int, patience: int, keep: int) returns (steps: seq<Step>)
    requires keep < life + patience
    ensures CanRun(Start(), steps) && PromptRun(Start(), steps, life, patience, keep)
    ensures !InGoodHands(Run(Start(), steps), id)
  {
    var late := life + patience;
    var w, sweep, revert := Claimed(id, life), DeleteSweep(keep, late), Revert(0, true, late);
    var w1 := Next(w, sweep);
    assert w1.rows == map[];
    LostApproval(Next(w1, revert), id);
    Cons(w1, revert, [], life, patience, keep);
    Cons(w, sweep, [revert] + [], life, patience, keep);
    steps := ReachClaimed(id, life, patience, keep, [sweep] + ([revert] + []));
  }

  ghost predicate Safe(steps: seq<Step>, id: string, life: int, patience: int, keep: int) {
    CanRun(Start(), steps) && PromptRun(Start(), steps, life, patience, keep) ==> InGoodHands(Run(Start(), steps), id)
  }

  /** Deletion strands no approval exactly when rows outlast the request's life and the longest poll. */
  lemma RetentionIff(life: int, patience: int, keep: int)
    ensures (forall steps, id :: Safe(steps, id, life, patience, keep)) <==> life + patience <= keep
  {
    if life + patience <= keep {
      forall steps, id ensures Safe(steps, id, life, patience, keep) {
        if CanRun(Start(), steps) && PromptRun(Start(), steps, life, patience, keep) {
          NoApprovalStranded(steps, id, life, patience, keep);
        }
      }
    } else {
      var steps := EarlyDeletionLosesApproval("", life, patience, keep);
      assert !Safe(steps, "", life, patience, keep);
    }
  }
}
