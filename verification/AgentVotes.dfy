/** Every interleaving of responders, pollers and sweeps over an agent action
    (services/agent_action_service.go:243-413 over database/agent_action_repository.go:486-603).

    A responder reads that the action is pending, inserts a vote, and then either marks the action
    denied, or counts the distinct approvers and, if they are enough, marks it approved.  The
    status updates have no guard. */
module AgentVotes {
  import opened Common
  import L = Lifecycle
  import opened AgentActions

  type Responder = nat

  datatype Phase =
    | Opened(request: string, approver: string)   // saw the action pending
    | Voted(request: string, approver: string)    // its approval was inserted; not yet counted
    | Enough(request: string)                     // its count reached the threshold
    | Refusing(request: string)                   // its denial was inserted
    | Lapsing(request: string)                    // a poller that saw it pending and expired

  datatype World = World(
    rows: Requests, decisions: Decisions, phases: map<Responder, Phase>,
    seen: set<string>,                            // history: actions whose threshold some responder saw
    written: map<string, seq<L.Status>>)          // history: status updates per action

  datatype Step =
    | Submit(request: string, status: L.Status, required: int, expiresAt: int, now: int)
    | Open(responder: Responder, request: string, approver: string, now: int)
    | Cast(responder: Responder, approved: bool, now: int)
    | Count(responder: Responder, now: int)
    | Write(responder: Responder, now: int)
    | SeeExpired(responder: Responder, request: string, now: int)
    | Sweep(now: int)

  function Start(): World {
    World(map[], map[], map[], {}, map[])
  }

  predicate Pending(w: World, request: string, now: int) {
    L.PendingAt(View(w.rows), request, now)
  }

  predicate Enabled(w: World, step: Step) {
    match step
    case Submit(request, status, _, _, _) => request !in w.rows
      && (status == L.Pending || status == L.AutoApproved || status == L.Denied)
    case Open(responder, request, _, now) => responder !in w.phases && Pending(w, request, now)
    case Cast(responder, _, _) => responder in w.phases && w.phases[responder].Opened?
    case Count(responder, _) => responder in w.phases && w.phases[responder].Voted?
      && w.phases[responder].request in w.rows
    case Write(responder, _) =>
      responder in w.phases && w.phases[responder].request in w.rows && w.phases[responder].request in w.written
      && (w.phases[responder].Enough? || w.phases[responder].Refusing? || w.phases[responder].Lapsing?)
    case SeeExpired(responder, request, now) =>
      responder !in w.phases && request in w.rows && w.rows[request].status == L.Pending
        && w.rows[request].expiresAt < now
    case Sweep(_) => true
  }

  function Outcome(phase: Phase): L.Status {
    match phase
    case Enough(_) => L.Approved
    case Refusing(_) => L.Denied
    case _ => L.Expired
  }

  function Next(w: World, step: Step): World
    requires Enabled(w, step)
  {
    match step
    case Submit(request, status, required, expiresAt, now) =>
      w.(rows := w.rows[request := ActionRequest(status, required, expiresAt, now, None)],
        written := w.written[request := []])
    case Open(responder, request, approver, _) => w.(phases := w.phases[responder := Opened(request, approver)])
    case Cast(responder, approved, _) =>
      var Opened(request, approver) := w.phases[responder];
      var ballot := Ballot(request, approver);
      var w1 := w.(decisions := Vote(w.decisions, ballot, approved));
      if ballot in w.decisions then w1.(phases := w.phases - {responder})
      else w1.(phases := w.phases[responder := if approved then Voted(request, approver) else Refusing(request)])
    case Count(responder, _) =>
      var request := w.phases[responder].request;
      if |Approvers(w.decisions, request)| >= w.rows[request].requiredApprovals
      then w.(phases := w.phases[responder := Enough(request)], seen := w.seen + {request})
      else w.(phases := w.phases - {responder})
    case Write(responder, now) =>
      var request, status := w.phases[responder].request, Outcome(w.phases[responder]);
      w.(rows := SetStatus(w.rows, request, status, now), phases := w.phases - {responder},
         written := w.written[request := w.written[request] + [status]])
    case SeeExpired(responder, request, _) => w.(phases := w.phases[responder := Lapsing(request)])
    case Sweep(now) => w.(rows := ExpireOld(w.rows, now))
  }

  predicate CanRun(w: World, steps: seq<Step>)
    decreases |steps|
  {
    steps == [] || (Enabled(w, steps[0]) && CanRun(Next(w, steps[0]), steps[1..]))
  }

  function Run(w: World, steps: seq<Step>): World
    requires CanRun(w, steps)
    decreases |steps|
  {
    if steps == [] then w else Run(Next(w, steps[0]), steps[1..])
  }

  // ---------- what IsPending tells a reader ----------

  predicate SweptBy(steps: seq<Step>, deadline: int) {
    exists i :: 0 <= i < |steps| && steps[i].Sweep? && deadline < steps[i].now
  }

  lemma SweptByFirst(steps: seq<Step>, deadline: int)
    requires steps != []
    ensures SweptBy(steps, deadline) <==> (steps[0].Sweep? && deadline < steps[0].now) || SweptBy(steps[1..], deadline)
  {
    if i :| 0 < i < |steps| && steps[i].Sweep? && deadline < steps[i].now {
      assert steps[1..][i - 1] == steps[i];
    }
  }

  predicate Submits(steps: seq<Step>, request: string, k: int) {
    0 <= k < |steps| && steps[k].Submit? && steps[k].request == request
  }

  predicate Kept(w: World, request: string) {
    request in w.rows && request in w.written
  }

  lemma StepPendingIff(w: World, step: Step, request: string)
    requires Enabled(w, step) && Kept(w, request)
    ensures var w' := Next(w, step);
            && Kept(w', request) && w'.rows[request].expiresAt == w.rows[request].expiresAt
            && (w.written[request] != [] ==> w'.written[request] != [])
            && (w'.written[request] == [] ==>
                  (w'.rows[request].status == L.Pending
                   <==> w.rows[request].status == L.Pending && !(step.Sweep? && w.rows[request].expiresAt < step.now)))
  {
  }

  /** While no status has been written, an action is pending exactly when it was and no sweep has reached it. */
  lemma {:induction false} StaysPendingIff(w: World, steps: seq<Step>, request: string)
    requires CanRun(w, steps) && Kept(w, request)
    ensures var w' := Run(w, steps);
            && Kept(w', request) && w'.rows[request].expiresAt == w.rows[request].expiresAt
            && (w.written[request] != [] ==> w'.written[request] != [])
            && (w'.written[request] == [] ==>
                  (w'.rows[request].status == L.Pending
                   <==> w.rows[request].status == L.Pending && !SweptBy(steps, w.rows[request].expiresAt)))
    decreases |steps|
  {
    if steps != [] {
      StepPendingIff(w, steps[0], request);
      StaysPendingIff(Next(w, steps[0]), steps[1..], request);
      SweptByFirst(steps, w.rows[request].expiresAt);
    }
  }

  lemma {:induction false} SinceSubmission(w: World, steps: seq<Step>, request: string, k: int)
    requires CanRun(w, steps) && Submits(steps, request, k)
    ensures var w', deadline := Run(w, steps), steps[k].expiresAt;
            && Kept(w', request) && w'.rows[request].expiresAt == deadline
            && (w'.written[request] == [] ==>
                  (w'.rows[request].status == L.Pending
                   <==> steps[k].status == L.Pending && !SweptBy(steps[k + 1..], deadline)))
    decreases |steps|
  {
    if k == 0 {
      StaysPendingIff(Next(w, steps[0]), steps[1..], request);
    } else {
      SinceSubmission(Next(w, steps[0]), steps[1..], request, k - 1);
      assert steps[1..][k..] == steps[k + 1..];
    }
  }

  lemma {:induction false} SubmittedAt(w: World, steps: seq<Step>, request: string) returns (k: int)
    requires CanRun(w, steps) && request !in w.rows && request in Run(w, steps).rows
    ensures Submits(steps, request, k)
    decreases |steps|
  {
    if steps[0].Submit? && steps[0].request == request {
      k := 0;
    } else {
      k := SubmittedAt(Next(w, steps[0]), steps[1..], request);
      k := k + 1;
    }
  }

  /** Step `k` submitted the action as pending, with a deadline that is not over, and no sweep has reached it. */
  predicate OpenSince(steps: seq<Step>, request: string, k: int, now: int) {
    && Submits(steps, request, k) && steps[k].status == L.Pending
    && now <= steps[k].expiresAt && !SweptBy(steps[k + 1..], steps[k].expiresAt)
  }

  /** In every run, an action reads as pending exactly when it was submitted as pending, nobody has written a status,
      no sweep has reached it, and its deadline is not over. */
  lemma PendingIff(steps: seq<Step>, request: string, now: int)
    requires CanRun(Start(), steps)
    ensures var w := Run(Start(), steps);
            Pending(w, request, now)
            <==> && request in w.written && w.written[request] == []
                 && exists k :: OpenSince(steps, request, k, now)
  {
    var w := Run(Start(), steps);
    forall k | Submits(steps, request, k)
      ensures request in w.written
      ensures w.written[request] == [] ==> (Pending(w, request, now) <==> OpenSince(steps, request, k, now))
    {
      SinceSubmission(Start(), steps, request, k);
    }
    if request in w.rows {
      var k := SubmittedAt(Start(), steps, request);
      WrittenNotPending(Start(), steps, request);
    }
  }

  /** A status once written is never pending. */
  lemma {:induction false} WrittenNotPending(w: World, steps: seq<Step>, request: string)
    requires CanRun(w, steps)
    requires Kept(w, request) && w.written[request] != [] ==> w.rows[request].status != L.Pending
    requires request in w.written ==> request in w.rows
    ensures var w' := Run(w, steps);
            Kept(w', request) && w'.written[request] != [] ==> w'.rows[request].status != L.Pending
    decreases |steps|
  {
    if steps != [] {
      WrittenNotPending(Next(w, steps[0]), steps[1..], request);
    }
  }

  /** The action reads expired, or a poller is about to write that it does. */
  ghost predicate Lapses(w: World, request: string) {
    || (request in w.rows && w.rows[request].status == L.Expired)
    || exists p :: p in w.phases && w.phases[p] == Lapsing(request)
  }

  predicate Late(step: Step, deadline: int) {
    (step.Sweep? || step.SeeExpired?) && deadline < step.now
  }

  predicate LateBy(steps: seq<Step>, deadline: int) {
    exists i :: 0 <= i < |steps| && Late(steps[i], deadline)
  }

  lemma LateByRest(steps: seq<Step>, deadline: int)
    requires steps != [] && LateBy(steps[1..], deadline)
    ensures LateBy(steps, deadline)
  {
    var i :| 0 <= i < |steps[1..]| && Late(steps[1..][i], deadline);
    assert Late(steps[i + 1], deadline);
  }

  lemma StepLapses(w: World, step: Step, request: string)
    requires Enabled(w, step) && request in w.rows
    ensures var w' := Next(w, step);
            && request in w'.rows && w'.rows[request].expiresAt == w.rows[request].expiresAt
            && (Lapses(w', request) ==> Lapses(w, request) || Late(step, w.rows[request].expiresAt))
  {
  }

  lemma {:induction false} RunLapses(w: World, steps: seq<Step>, request: string)
    requires CanRun(w, steps) && request in w.rows
    ensures Lapses(Run(w, steps), request) ==> Lapses(w, request) || LateBy(steps, w.rows[request].expiresAt)
    decreases |steps|
  {
    if steps != [] {
      StepLapses(w, steps[0], request);
      RunLapses(Next(w, steps[0]), steps[1..], request);
      if LateBy(steps[1..], w.rows[request].expiresAt) {
        LateByRest(steps, w.rows[request].expiresAt);
      }
    }
  }

  ghost predicate Unknown(w: World, request: string) {
    request !in w.rows && forall p :: p in w.phases ==> w.phases[p].request != request
  }

  /** In every run an action reads expired only if a sweep or a poller came after its deadline. */
  lemma {:induction false} ExpiredOnlyLate(w: World, steps: seq<Step>, request: string)
    requires CanRun(w, steps) && Unknown(w, request)
    ensures Lapses(Run(w, steps), request) ==>
              exists k :: Submits(steps, request, k) && LateBy(steps[k + 1..], steps[k].expiresAt)
    decreases |steps|
  {
    if steps != [] {
      var w1 := Next(w, steps[0]);
      if steps[0].Submit? && steps[0].request == request {
        RunLapses(w1, steps[1..], request);
        assert Submits(steps, request, 0) && !Lapses(w1, request);
      } else {
        ExpiredOnlyLate(w1, steps[1..], request);
        if Lapses(Run(w, steps), request) {
          var k :| Submits(steps[1..], request, k) && LateBy(steps[1..][k + 1..], steps[1..][k].expiresAt);
          assert Submits(steps, request, k + 1) && steps[1..][k + 1..] == steps[k + 2..];
        }
      }
    }
  }

  // ---------- the invariant ----------

  predicate HasApproval(w: World, request: string) {
    Approvers(w.decisions, request) != {}
  }

  predicate Reached(w: World, request: string)
    requires request in w.rows
  {
    w.rows[request].requiredApprovals <= |Approvers(w.decisions, request)| && HasApproval(w, request)
  }

  predicate HasDenial(w: World, request: string) {
    exists b :: b in w.decisions && b.request == request && !w.decisions[b]
  }

  ghost predicate PhaseOk(w: World, phase: Phase) {
    && phase.request in w.rows
    && (phase.Voted? ==>
          Ballot(phase.request, phase.approver) in w.decisions && w.decisions[Ballot(phase.request, phase.approver)])
    && (phase.Enough? ==> Reached(w, phase.request) && phase.request in w.seen)
    && (phase.Refusing? ==> HasDenial(w, phase.request))
  }

  /** Some responder is in the given phase of the action. */
  predicate Working(w: World, request: string, phase: Phase -> bool) {
    exists p :: p in w.phases && w.phases[p].request == request && phase(w.phases[p])
  }

  predicate IsVoted(p: Phase) { p.Voted? }
  predicate IsEnough(p: Phase) { p.Enough? }

  ghost predicate RequestOk(w: World, request: string) {
    if request in w.rows then
      && request in w.written
      // Approved is written only when enough distinct approvers have voted, Denied only after a denial.
      && (L.Approved in w.written[request] ==> Reached(w, request))
      && (L.Denied in w.written[request] ==> HasDenial(w, request))
      // Whoever votes last still has to count; whoever saw the threshold still has to write.
      && (Reached(w, request) ==> request in w.seen || Working(w, request, IsVoted))
      && (request in w.seen ==>
            Reached(w, request) && (L.Approved in w.written[request] || Working(w, request, IsEnough)))
      && (w.rows[request].status == L.Approved ==> L.Approved in w.written[request])
    else
      && request !in w.written && request !in w.seen
      && forall b :: b in w.decisions ==> b.request != request
  }

  ghost predicate Inv(w: World) {
    && (forall p :: p in w.phases ==> PhaseOk(w, w.phases[p]))
    && (forall request :: RequestOk(w, request))
  }

  lemma VoteGrows(decisions: Decisions, ballot: Ballot, approved: bool, request: string)
    ensures Approvers(decisions, request) <= Approvers(Vote(decisions, ballot, approved), request)
    ensures |Approvers(decisions, request)| <= |Approvers(Vote(decisions, ballot, approved), request)|
  {
    var a, b := Approvers(decisions, request), Approvers(Vote(decisions, ballot, approved), request);
    forall x | x in a ensures x in b {
      var v :| v in decisions && v.request == request && decisions[v] && v.approver == x;
      assert v in Vote(decisions, ballot, approved);
    }
    assert b == a + (b - a);
  }

  /** Votes only add: what was reached or denied stays so. */
  lemma StepGrows(w: World, step: Step, request: string)
    requires Enabled(w, step)
    ensures Approvers(w.decisions, request) <= Approvers(Next(w, step).decisions, request)
    ensures |Approvers(w.decisions, request)| <= |Approvers(Next(w, step).decisions, request)|
    ensures HasDenial(w, request) ==> HasDenial(Next(w, step), request)
    ensures request in w.rows ==>
              && request in Next(w, step).rows
              && Next(w, step).rows[request].requiredApprovals == w.rows[request].requiredApprovals
  {
    var w' := Next(w, step);
    if step.Cast? {
      var ballot := Ballot(w.phases[step.responder].request, w.phases[step.responder].approver);
      VoteGrows(w.decisions, ballot, step.approved, request);
    }
    if HasDenial(w, request) {
      var b :| b in w.decisions && b.request == request && !w.decisions[b];
      assert b in w'.decisions && !w'.decisions[b];
    }
  }

  lemma StepKeepsPhase(w: World, step: Step, p: Responder)
    requires Inv(w) && Enabled(w, step) && p in Next(w, step).phases
    ensures PhaseOk(Next(w, step), Next(w, step).phases[p])
  {
    if p !in w.phases {
      NewPhase(w, step, p);
    } else {
      assert PhaseOk(w, w.phases[p]);
      if step.Cast? && p == step.responder {
        CastKeepsPhase(w, p, step.approved, step.now);
      } else if step.Count? && p == step.responder {
        CountKeepsPhase(w, p, step.now);
      } else {
        OtherPhase(w, step, p);
      }
    }
  }

  lemma NewPhase(w: World, step: Step, p: Responder)
    requires Enabled(w, step) && p !in w.phases && p in Next(w, step).phases
    ensures PhaseOk(Next(w, step), Next(w, step).phases[p])
  {
  }

  lemma OtherPhase(w: World, step: Step, p: Responder)
    requires Enabled(w, step) && p in w.phases && p in Next(w, step).phases && w.phases[p] == Next(w, step).phases[p]
    requires PhaseOk(w, w.phases[p])
    ensures PhaseOk(Next(w, step), w.phases[p])
  {
    StepGrows(w, step, w.phases[p].request);
    SeenGrows(w, step);
  }

  lemma SeenGrows(w: World, step: Step)
    requires Enabled(w, step)
    ensures w.seen <= Next(w, step).seen
    ensures forall b :: b in w.decisions ==>
              b in Next(w, step).decisions && Next(w, step).decisions[b] == w.decisions[b]
  {
  }

  lemma CastKeepsPhase(w: World, p: Responder, approved: bool, now: int)
    requires Enabled(w, Cast(p, approved, now)) && PhaseOk(w, w.phases[p])
             && p in Next(w, Cast(p, approved, now)).phases
    ensures PhaseOk(Next(w, Cast(p, approved, now)), Next(w, Cast(p, approved, now)).phases[p])
  {
    var w' := Next(w, Cast(p, approved, now));
    var ballot := Ballot(w.phases[p].request, w.phases[p].approver);
    assert ballot in w'.decisions && w'.decisions[ballot] == approved;
  }

  lemma CountKeepsPhase(w: World, p: Responder, now: int)
    requires Enabled(w, Count(p, now)) && PhaseOk(w, w.phases[p]) && p in Next(w, Count(p, now)).phases
    ensures PhaseOk(Next(w, Count(p, now)), Next(w, Count(p, now)).phases[p])
  {
    var Voted(request, approver) := w.phases[p];
    assert w.decisions[Ballot(request, approver)];
    assert approver in Approvers(w.decisions, request);
  }

  /** A responder who is not the one stepping stays where it is. */
  lemma StillWorking(w: World, step: Step, request: string, phase: Phase -> bool)
    requires Enabled(w, step) && Working(w, request, phase)
    requires step.Submit? || step.Sweep? || step.Open? || step.SeeExpired? || !phase(w.phases[step.responder])
             || w.phases[step.responder].request != request
    ensures Working(Next(w, step), request, phase)
  {
    var p :| p in w.phases && w.phases[p].request == request && phase(w.phases[p]);
    assert Next(w, step).phases[p] == w.phases[p];
  }

  lemma NewRequest(w: World, step: Step, request: string)
    requires Inv(w) && Enabled(w, step) && request !in w.rows
    ensures RequestOk(Next(w, step), request)
  {
    assert RequestOk(w, request);
    var w' := Next(w, step);
    if step.Cast? || step.Count? || step.Write? {
      assert PhaseOk(w, w.phases[step.responder]);
    }
    assert forall b :: b in w'.decisions ==> b.request != request;
    assert Approvers(w'.decisions, request) == {};
  }

  lemma OldRequest(w: World, step: Step, request: string)
    requires Inv(w) && Enabled(w, step) && request in w.rows
    ensures RequestOk(Next(w, step), request)
  {
    assert RequestOk(w, request);
    if step.Cast? {
      CastKeepsRequest(w, step, request);
    } else if step.Count? {
      CountKeepsRequest(w, step, request);
    } else if step.Write? {
      WriteKeepsRequest(w, step, request);
    } else {
      OtherKeepsRequest(w, step, request);
    }
  }

  lemma CastKeepsRequest(w: World, step: Step, request: string)
    requires RequestOk(w, request) && Enabled(w, step) && request in w.rows && step.Cast?
    ensures RequestOk(Next(w, step), request)
  {
    var w' := Next(w, step);
    StepGrows(w, step, request);
    if Working(w, request, IsVoted) {
      StillWorking(w, step, request, IsVoted);
    }
    if Working(w, request, IsEnough) {
      StillWorking(w, step, request, IsEnough);
    }
    if Reached(w', request) && !Reached(w, request) {
      ReachingVote(w, step.responder, step.approved, step.now, request);
    }
  }

  lemma CountKeepsRequest(w: World, step: Step, request: string)
    requires Inv(w) && RequestOk(w, request) && Enabled(w, step) && request in w.rows && step.Count?
    ensures RequestOk(Next(w, step), request)
  {
    var w' := Next(w, step);
    var mine := w.phases[step.responder].request == request;
    assert PhaseOk(w, w.phases[step.responder]);
    if Working(w, request, IsVoted) && !mine {
      StillWorking(w, step, request, IsVoted);
    }
    if Working(w, request, IsEnough) {
      StillWorking(w, step, request, IsEnough);
    }
    if mine && request in w'.seen {
      if request !in w.seen {
        CountKeepsPhase(w, step.responder, step.now);
        assert IsEnough(w'.phases[step.responder]);
      }
    }
  }

  lemma WriteKeepsRequest(w: World, step: Step, request: string)
    requires Inv(w) && RequestOk(w, request) && Enabled(w, step) && request in w.rows && step.Write?
    ensures RequestOk(Next(w, step), request)
  {
    var phase := w.phases[step.responder];
    assert PhaseOk(w, phase);
    if Working(w, request, IsVoted) {
      StillWorking(w, step, request, IsVoted);
    }
    if Working(w, request, IsEnough) && !(phase.request == request && phase.Enough?) {
      StillWorking(w, step, request, IsEnough);
    }
  }

  lemma OtherKeepsRequest(w: World, step: Step, request: string)
    requires RequestOk(w, request) && Enabled(w, step) && request in w.rows && !step.Cast? && !step.Count?
             && !step.Write?
    ensures RequestOk(Next(w, step), request)
  {
    if Working(w, request, IsVoted) {
      StillWorking(w, step, request, IsVoted);
    }
    if Working(w, request, IsEnough) {
      StillWorking(w, step, request, IsEnough);
    }
  }

  /** The vote that reaches the threshold leaves its responder to count. */
  lemma ReachingVote(w: World, p: Responder, approved: bool, now: int, request: string)
    requires Enabled(w, Cast(p, approved, now)) && request in w.rows
    requires !Reached(w, request) && Reached(Next(w, Cast(p, approved, now)), request)
    ensures Working(Next(w, Cast(p, approved, now)), request, IsVoted)
  {
    var ballot := Ballot(w.phases[p].request, w.phases[p].approver);
    if ballot.request != request || ballot in w.decisions || !approved {
      SameApprovers(w.decisions, ballot, approved, request);
    }
    assert IsVoted(Next(w, Cast(p, approved, now)).phases[p]);
  }

  lemma SameApprovers(decisions: Decisions, ballot: Ballot, approved: bool, request: string)
    requires ballot.request != request || ballot in decisions || !approved
    ensures Approvers(Vote(decisions, ballot, approved), request) == Approvers(decisions, request)
  {
    VoteGrows(decisions, ballot, approved, request);
    forall x | x in Approvers(Vote(decisions, ballot, approved), request) ensures x in Approvers(decisions, request) {
      var v :| v in Vote(decisions, ballot, approved) && v.request == request && Vote(decisions, ballot, approved)[v]
        && v.approver == x;
      assert v in decisions;
    }
  }

  lemma StepKeepsInv(w: World, step: Step)
    requires Inv(w) && Enabled(w, step)
    ensures Inv(Next(w, step))
  {
    var w' := Next(w, step);
    forall p | p in w'.phases ensures PhaseOk(w', w'.phases[p]) { StepKeepsPhase(w, step, p); }
    forall request ensures RequestOk(w', request) {
      if request in w.rows {
        OldRequest(w, step, request);
      } else {
        NewRequest(w, step, request);
      }
    }
  }

  lemma {:induction false} RunKeepsInv(w: World, steps: seq<Step>)
    requires Inv(w) && CanRun(w, steps)
    ensures Inv(Run(w, steps))
    decreases |steps|
  {
    if steps != [] {
      StepKeepsInv(w, steps[0]);
      RunKeepsInv(Next(w, steps[0]), steps[1..]);
    }
  }

  // ---------- the results ----------

  /** In every interleaving an action is marked approved only when enough different approvers have
      approved, and marked denied only when somebody has denied. */
  lemma ApprovedMeansEnough(steps: seq<Step>, request: string)
    requires CanRun(Start(), steps) && request in Run(Start(), steps).rows
    ensures var w := Run(Start(), steps);
            && (w.rows[request].status == L.Approved ==>
                  w.rows[request].requiredApprovals <= |Approvers(w.decisions, request)|
                    && Approvers(w.decisions, request) != {})
            && request in w.written
            && (L.Approved in w.written[request] ==>
                  w.rows[request].requiredApprovals <= |Approvers(w.decisions, request)|)
            && (L.Denied in w.written[request] ==> HasDenial(w, request))
  {
    RunKeepsInv(Start(), steps);
    assert RequestOk(Run(Start(), steps), request);
  }

  /** No threshold is missed: once enough approvers have voted and every responder is done, some
      responder saw the threshold and marked the action approved. */
  lemma ThresholdNotMissed(steps: seq<Step>, request: string)
    requires CanRun(Start(), steps) && request in Run(Start(), steps).rows
    requires var w := Run(Start(), steps);
             && Approvers(w.decisions, request) != {}
             && w.rows[request].requiredApprovals <= |Approvers(w.decisions, request)|
             && forall p :: p in w.phases ==> w.phases[p].request != request
    ensures var w := Run(Start(), steps);
            request in w.seen && request in w.written && L.Approved in w.written[request]
  {
    RunKeepsInv(Start(), steps);
    assert RequestOk(Run(Start(), steps), request);
  }

  /** A first vote is final, and the approvers counted never become fewer. */
  lemma {:induction false} VotesAreFinal(w: World, steps: seq<Step>, ballot: Ballot, request: string)
    requires CanRun(w, steps)
    ensures ballot in w.decisions ==>
              ballot in Run(w, steps).decisions && Run(w, steps).decisions[ballot] == w.decisions[ballot]
    ensures |Approvers(w.decisions, request)| <= |Approvers(Run(w, steps).decisions, request)|
    decreases |steps|
  {
    if steps != [] {
      StepGrows(w, steps[0], request);
      VotesAreFinal(Next(w, steps[0]), steps[1..], ballot, request);
    }
  }

  // ---------- when a decided action is final ----------

  /** This responder or poller has nothing left to write: its approver had voted before, or its
      approval leaves the threshold unmet. */
  predicate Spent(w: World, phase: Phase)
    requires phase.request in w.rows
  {
    match phase
    case Opened(request, approver) => Ballot(request, approver) in w.decisions
    case Voted(request, _) => |Approvers(w.decisions, request)| < w.rows[request].requiredApprovals
    case _ => false
  }

  /** The action is decided and everybody still at work on it is spent. */
  ghost predicate Closed(w: World, request: string) {
    && request in w.rows && request in w.written && w.rows[request].status != L.Pending
    && forall p :: p in w.phases && w.phases[p].request == request ==> Spent(w, w.phases[p])
  }

  lemma StepKeepsClosed(w: World, step: Step, request: string)
    requires Closed(w, request) && Enabled(w, step)
    ensures Closed(Next(w, step), request)
    ensures Next(w, step).rows[request] == w.rows[request] && Next(w, step).written[request] == w.written[request]
  {
    if step.Cast? {
      var ballot := Ballot(w.phases[step.responder].request, w.phases[step.responder].approver);
      if w.phases[step.responder].request == request {
        assert Spent(w, w.phases[step.responder]);
      }
      SameApprovers(w.decisions, ballot, step.approved, request);
    }
    if step.Count? || step.Write? {
      assert w.phases[step.responder].request == request ==> Spent(w, w.phases[step.responder]);
    }
  }

  /** A closed action stays as it is in every continuation... */
  lemma {:induction false} ClosedIsFinal(w: World, steps: seq<Step>, request: string)
    requires CanRun(w, steps) && Closed(w, request)
    ensures var w' := Run(w, steps);
            && request in w'.rows && w'.rows[request] == w.rows[request]
            && request in w'.written && w'.written[request] == w.written[request]
    decreases |steps|
  {
    if steps != [] {
      StepKeepsClosed(w, steps[0], request);
      ClosedIsFinal(Next(w, steps[0]), steps[1..], request);
    }
  }

  lemma Cons(w: World, step: Step, rest: seq<Step>)
    requires Enabled(w, step) && CanRun(Next(w, step), rest)
    ensures CanRun(w, [step] + rest) && Run(w, [step] + rest) == Run(Next(w, step), rest)
  {
    assert ([step] + rest)[1..] == rest;
  }

  /** ...and any other decided action can be written once more. */
  lemma UnspentWrites(w: World, p: Responder, now: int) returns (steps: seq<Step>)
    requires p in w.phases && w.phases[p].request in w.rows && w.phases[p].request in w.written
             && !Spent(w, w.phases[p])
    ensures CanRun(w, steps)
    ensures var request := w.phases[p].request;
            request in Run(w, steps).written && |Run(w, steps).written[request]| == |w.written[request]| + 1
  {
    match w.phases[p]
    case Opened(request, approver) =>
      var w1 := Next(w, Cast(p, false, now));
      Cons(w1, Write(p, now), []);
      Cons(w, Cast(p, false, now), [Write(p, now)] + []);
      steps := [Cast(p, false, now)] + ([Write(p, now)] + []);
    case Voted(request, approver) =>
      var w1 := Next(w, Count(p, now));
      Cons(w1, Write(p, now), []);
      Cons(w, Count(p, now), [Write(p, now)] + []);
      steps := [Count(p, now)] + ([Write(p, now)] + []);
    case _ =>
      Cons(w, Write(p, now), []);
      steps := [Write(p, now)] + [];
  }

  ghost predicate KeepsWritten(w: World, steps: seq<Step>, request: string)
    requires request in w.written
  {
    CanRun(w, steps) ==> request in Run(w, steps).written && Run(w, steps).written[request] == w.written[request]
  }

  /** A decided action gets no further status update, in any continuation, exactly when everybody
      still at work on it is spent. */
  lemma FinalIff(w: World, request: string)
    requires request in w.rows && request in w.written && w.rows[request].status != L.Pending
    ensures (forall steps :: KeepsWritten(w, steps, request)) <==> Closed(w, request)
  {
    if Closed(w, request) {
      forall steps ensures KeepsWritten(w, steps, request) {
        if CanRun(w, steps) {
          ClosedIsFinal(w, steps, request);
        }
      }
    } else {
      var p :| p in w.phases && w.phases[p].request == request && !Spent(w, w.phases[p]);
      var steps := UnspentWrites(w, p, 0);
      assert !KeepsWritten(w, steps, request);
    }
  }
}
