/** When a denied agent action stays denied (services/agent_action_service.go:243-413).

    Status updates have no guard, so a responder or poller that is still at work on an action can
    overwrite its denial.  Whether any of them, alone or together, still can is decided exactly by who
    is at work and by how many different approvers they can still bring together. */
module AgentDenials {
  import opened Common
  import L = Lifecycle
  import opened AgentActions
  import opened AgentVotes

  /** Saw the action pending and has not voted. */
  predicate Unvoted(w: World, phase: Phase, request: string) {
    phase.Opened? && phase.request == request && Ballot(request, phase.approver) !in w.decisions
  }

  /** Can come to count the approvers of the action. */
  predicate MayCount(w: World, phase: Phase, request: string) {
    Unvoted(w, phase, request) || (phase.Voted? && phase.request == request)
  }

  predicate SomeoneMayCount(w: World, request: string) {
    exists p :: p in w.phases && MayCount(w, w.phases[p], request)
  }

  function UnvotedApprovers(w: World, request: string): set<string> {
    set p | p in w.phases && Unvoted(w, w.phases[p], request) :: w.phases[p].approver
  }

  /** Everybody who has approved or still can. */
  function Potential(w: World, request: string): set<string> {
    Approvers(w.decisions, request) + UnvotedApprovers(w, request)
  }

  /** Nobody is about to write another status, and those who may still count cannot bring enough
      different approvers together. */
  ghost predicate Safe(w: World, request: string)
    requires request in w.rows
  {
    && (forall p :: p in w.phases && w.phases[p].request == request ==> !w.phases[p].Enough? && !w.phases[p].Lapsing?)
    && (SomeoneMayCount(w, request) ==> |Potential(w, request)| < w.rows[request].requiredApprovals)
  }

  ghost predicate Denied(w: World, request: string) {
    request in w.rows && request in w.written && w.rows[request].status == L.Denied
  }

  // ---------- a safe denial stays ----------

  lemma SubsetSize<T>(a: set<T>, b: set<T>)
    requires a <= b
    ensures |a| <= |b|
  {
    assert b == a + (b - a);
  }

  lemma VoteApprovers(decisions: Decisions, ballot: Ballot, approved: bool, request: string)
    ensures Approvers(Vote(decisions, ballot, approved), request)
         == Approvers(decisions, request)
            + if ballot.request == request && approved && ballot !in decisions then {ballot.approver} else {}
  {
    if ballot.request != request || ballot in decisions || !approved {
      SameApprovers(decisions, ballot, approved, request);
    } else {
      VoteGrows(decisions, ballot, approved, request);
      var after := Vote(decisions, ballot, approved);
      assert after[ballot];
      forall x | x in Approvers(after, request) ensures x in Approvers(decisions, request) + {ballot.approver} {
        var v :| v in after && v.request == request && after[v] && v.approver == x;
        assert v != ballot ==> v in decisions;
      }
    }
  }

  lemma UnvotedBefore(w: World, step: Step, request: string, p: Responder)
    requires Enabled(w, step) && Denied(w, request) && p in Next(w, step).phases
    ensures Unvoted(Next(w, step), Next(w, step).phases[p], request)
            ==> p in w.phases && Unvoted(w, w.phases[p], request) && w.phases[p] == Next(w, step).phases[p]
    ensures MayCount(Next(w, step), Next(w, step).phases[p], request)
            ==> p in w.phases && MayCount(w, w.phases[p], request)
  {
  }

  lemma PotentialShrinks(w: World, step: Step, request: string)
    requires Enabled(w, step) && Denied(w, request)
    ensures Potential(Next(w, step), request) <= Potential(w, request)
  {
    var w' := Next(w, step);
    forall x | x in UnvotedApprovers(w', request) ensures x in UnvotedApprovers(w, request) {
      var p :| p in w'.phases && Unvoted(w', w'.phases[p], request) && w'.phases[p].approver == x;
      UnvotedBefore(w, step, request, p);
    }
    if step.Cast? {
      var phase := w.phases[step.responder];
      VoteApprovers(w.decisions, Ballot(phase.request, phase.approver), step.approved, request);
      if phase.request == request && Ballot(request, phase.approver) !in w.decisions {
        assert Unvoted(w, phase, request);
      }
    }
  }

  lemma CountFails(w: World, p: Responder, now: int, request: string)
    requires Denied(w, request) && Safe(w, request) && Enabled(w, Count(p, now)) && w.phases[p].request == request
    ensures p !in Next(w, Count(p, now)).phases
  {
    assert MayCount(w, w.phases[p], request);
    SubsetSize(Approvers(w.decisions, request), Potential(w, request));
  }

  lemma SomeoneMayCountBefore(w: World, step: Step, request: string)
    requires Enabled(w, step) && Denied(w, request) && SomeoneMayCount(Next(w, step), request)
    ensures SomeoneMayCount(w, request)
  {
    var w' := Next(w, step);
    var p :| p in w'.phases && MayCount(w', w'.phases[p], request);
    UnvotedBefore(w, step, request, p);
  }

  lemma StepKeepsDenied(w: World, step: Step, request: string)
    requires Enabled(w, step) && Denied(w, request) && Safe(w, request)
    ensures Denied(Next(w, step), request) && Safe(Next(w, step), request)
  {
    var w' := Next(w, step);
    NobodyOverwrites(w, step, request);
    PotentialShrinks(w, step, request);
    SubsetSize(Potential(w', request), Potential(w, request));
    if SomeoneMayCount(w', request) {
      SomeoneMayCountBefore(w, step, request);
    }
  }

  lemma NobodyOverwrites(w: World, step: Step, request: string)
    requires Enabled(w, step) && Denied(w, request) && Safe(w, request)
    ensures var w' := Next(w, step);
            && Denied(w', request) && w'.rows[request].requiredApprovals == w.rows[request].requiredApprovals
            && forall p :: p in w'.phases && w'.phases[p].request == request ==>
                 !w'.phases[p].Enough? && !w'.phases[p].Lapsing?
  {
    if step.Count? && w.phases[step.responder].request == request {
      CountFails(w, step.responder, step.now, request);
    }
  }

  lemma {:induction false} RunKeepsDenied(w: World, steps: seq<Step>, request: string)
    requires CanRun(w, steps) && Denied(w, request) && Safe(w, request)
    ensures Denied(Run(w, steps), request)
    decreases |steps|
  {
    if steps != [] {
      StepKeepsDenied(w, steps[0], request);
      RunKeepsDenied(Next(w, steps[0]), steps[1..], request);
    }
  }

  // ---------- any other denial can be overwritten ----------

  /** The responder in `w.phases[p]` writes its outcome. */
  lemma Writes(w: World, p: Responder, now: int, request: string) returns (steps: seq<Step>)
    requires p in w.phases && w.phases[p].request == request && request in w.rows && request in w.written
    requires w.phases[p].Enough? || w.phases[p].Refusing? || w.phases[p].Lapsing?
    ensures CanRun(w, steps)
    ensures var w' := Run(w, steps);
            && request in w'.rows && w'.rows[request].status == Outcome(w.phases[p])
            && w'.written == w.written[request := w.written[request] + [Outcome(w.phases[p])]]
  {
    Cons(w, Write(p, now), []);
    steps := [Write(p, now)] + [];
  }

  /** One of the un-voted approves. */
  lemma CastApproval(w: World, q: Responder, now: int, request: string)
    requires q in w.phases && Unvoted(w, w.phases[q], request) && request in w.rows
    ensures Enabled(w, Cast(q, true, now))
    ensures var w' := Next(w, Cast(q, true, now));
            && w'.rows == w.rows && w'.written == w.written
            && q in w'.phases && MayCount(w', w'.phases[q], request)
            && Potential(w, request) <= Potential(w', request)
            && UnvotedApprovers(w', request) < UnvotedApprovers(w, request)
  {
    var w' := Next(w, Cast(q, true, now));
    var approver := w.phases[q].approver;
    var ballot := Ballot(request, approver);
    VoteApprovers(w.decisions, ballot, true, request);
    assert ballot in w'.decisions;
    assert approver in UnvotedApprovers(w, request);
    forall x ensures x in UnvotedApprovers(w', request) <==> x in UnvotedApprovers(w, request) && x != approver {
      if x in UnvotedApprovers(w, request) && x != approver {
        var p :| p in w.phases && Unvoted(w, w.phases[p], request) && w.phases[p].approver == x;
        assert w'.phases[p] == w.phases[p] && Unvoted(w', w'.phases[p], request);
      }
      if x in UnvotedApprovers(w', request) {
        var p :| p in w'.phases && Unvoted(w', w'.phases[p], request) && w'.phases[p].approver == x;
        assert p != q && w.phases[p] == w'.phases[p] && Unvoted(w, w.phases[p], request);
      }
    }
  }

  /** The last voter counts and writes. */
  lemma CountAndWrite(w: World, p: Responder, now: int, request: string) returns (steps: seq<Step>)
    requires request in w.rows && request in w.written && p in w.phases && w.phases[p].Voted?
             && w.phases[p].request == request
    requires w.rows[request].requiredApprovals <= |Approvers(w.decisions, request)|
    ensures CanRun(w, steps)
    ensures var w' := Run(w, steps);
            request in w'.rows && w'.rows[request].status == L.Approved
              && w'.written == w.written[request := w.written[request] + [L.Approved]]
  {
    var w1 := Next(w, Count(p, now));
    steps := Writes(w1, p, now, request);
    Cons(w, Count(p, now), steps);
    steps := [Count(p, now)] + steps;
  }

  /** Whatever its status, an action is marked approved in some continuation when somebody may still
      count and those who have approved or still can are enough. */
  lemma {:induction false} LateApproval(w: World, p: Responder, request: string, now: int) returns (steps: seq<Step>)
    requires request in w.rows && request in w.written && p in w.phases && MayCount(w, w.phases[p], request)
    requires w.rows[request].requiredApprovals <= |Potential(w, request)|
    ensures CanRun(w, steps)
    ensures var w' := Run(w, steps);
            request in w'.rows && w'.rows[request].status == L.Approved
              && w'.written == w.written[request := w.written[request] + [L.Approved]]
    decreases |UnvotedApprovers(w, request)|
  {
    if x :| x in UnvotedApprovers(w, request) {
      var q :| q in w.phases && Unvoted(w, w.phases[q], request) && w.phases[q].approver == x;
      CastApproval(w, q, now, request);
      var w1 := Next(w, Cast(q, true, now));
      SubsetSize(Potential(w, request), Potential(w1, request));
      Smaller(UnvotedApprovers(w1, request), UnvotedApprovers(w, request));
      steps := LateApproval(w1, q, request, now);
      Cons(w, Cast(q, true, now), steps);
      steps := [Cast(q, true, now)] + steps;
    } else {
      if Unvoted(w, w.phases[p], request) {
        UnvotedIn(w, p, request);
      }
      assert Potential(w, request) == Approvers(w.decisions, request);
      steps := CountAndWrite(w, p, now, request);
    }
  }

  lemma UnvotedIn(w: World, p: Responder, request: string)
    requires p in w.phases && Unvoted(w, w.phases[p], request)
    ensures exists x :: x in UnvotedApprovers(w, request)
  {
    assert w.phases[p].approver in UnvotedApprovers(w, request);
  }

  lemma Smaller<T>(a: set<T>, b: set<T>)
    requires a < b
    ensures |a| < |b|
  {
    assert b == a + (b - a);
    assert b - a != {};
  }

  // ---------- exactly when a denial stays ----------

  ghost predicate KeepsDenial(w: World, steps: seq<Step>, request: string) {
    CanRun(w, steps) ==> Denied(Run(w, steps), request)
  }

  /** A denied action stays denied in every continuation exactly when it is safe. */
  lemma DenialStaysIff(w: World, request: string)
    requires Denied(w, request)
    ensures (forall steps :: KeepsDenial(w, steps, request)) <==> Safe(w, request)
  {
    if Safe(w, request) {
      forall steps ensures KeepsDenial(w, steps, request) {
        if CanRun(w, steps) {
          RunKeepsDenied(w, steps, request);
        }
      }
    } else {
      var steps := Overwrites(w, request);
      assert !KeepsDenial(w, steps, request);
    }
  }

  lemma Overwrites(w: World, request: string) returns (steps: seq<Step>)
    requires Denied(w, request) && !Safe(w, request)
    ensures CanRun(w, steps) && !Denied(Run(w, steps), request)
  {
    if p :| p in w.phases && w.phases[p].request == request && (w.phases[p].Enough? || w.phases[p].Lapsing?) {
      steps := Writes(w, p, 0, request);
    } else {
      var p :| p in w.phases && MayCount(w, w.phases[p], request);
      steps := LateApproval(w, p, request, 0);
    }
  }

  // ---------- exactly when an approval stays ----------

  ghost predicate ApprovedRow(w: World, request: string) {
    request in w.rows && request in w.written && w.rows[request].status == L.Approved
  }

  /** Nobody at work on the action can come to write anything but an approval. */
  ghost predicate Unthreatened(w: World, request: string) {
    forall p :: p in w.phases && w.phases[p].request == request ==>
      !w.phases[p].Refusing? && !w.phases[p].Lapsing? && !Unvoted(w, w.phases[p], request)
  }

  lemma StepKeepsApproved(w: World, step: Step, request: string)
    requires Enabled(w, step) && ApprovedRow(w, request) && Unthreatened(w, request)
    ensures ApprovedRow(Next(w, step), request) && Unthreatened(Next(w, step), request)
  {
  }

  lemma {:induction false} RunKeepsApproved(w: World, steps: seq<Step>, request: string)
    requires CanRun(w, steps) && ApprovedRow(w, request) && Unthreatened(w, request)
    ensures ApprovedRow(Run(w, steps), request)
    decreases |steps|
  {
    if steps != [] {
      StepKeepsApproved(w, steps[0], request);
      RunKeepsApproved(Next(w, steps[0]), steps[1..], request);
    }
  }

  lemma Unapproves(w: World, p: Responder, request: string) returns (steps: seq<Step>)
    requires ApprovedRow(w, request) && p in w.phases && w.phases[p].request == request
    requires w.phases[p].Refusing? || w.phases[p].Lapsing? || Unvoted(w, w.phases[p], request)
    ensures CanRun(w, steps) && !ApprovedRow(Run(w, steps), request)
  {
    if w.phases[p].Opened? {
      var w1 := Next(w, Cast(p, false, 0));
      steps := Writes(w1, p, 0, request);
      Cons(w, Cast(p, false, 0), steps);
      steps := [Cast(p, false, 0)] + steps;
    } else {
      steps := Writes(w, p, 0, request);
    }
  }

  ghost predicate KeepsApproval(w: World, steps: seq<Step>, request: string) {
    CanRun(w, steps) ==> ApprovedRow(Run(w, steps), request)
  }

  /** An approved action stays approved in every continuation exactly when nobody at work on it is refusing it, is
      about to mark it expired, or saw it pending and has not voted. */
  lemma ApprovalStaysIff(w: World, request: string)
    requires ApprovedRow(w, request)
    ensures (forall steps :: KeepsApproval(w, steps, request)) <==> Unthreatened(w, request)
  {
    if Unthreatened(w, request) {
      forall steps ensures KeepsApproval(w, steps, request) {
        if CanRun(w, steps) {
          RunKeepsApproved(w, steps, request);
        }
      }
    } else {
      var p :| p in w.phases && w.phases[p].request == request &&
               (w.phases[p].Refusing? || w.phases[p].Lapsing? || Unvoted(w, w.phases[p], request));
      var steps := Unapproves(w, p, request);
      assert !KeepsApproval(w, steps, request);
    }
  }

  // ---------- a run that overwrites a denial ----------

  const LIFE := 100

  function Fresh(status: L.Status, resolvedAt: Option<int>): ActionRequest {
    ActionRequest(status, 1, LIFE, 0, resolvedAt)
  }

  /** Two responders have seen the action pending. */
  function TwoOpen(a: string, no: string, yes: string): World {
    World(map[a := Fresh(L.Pending, None)], map[], map[0 := Opened(a, no), 1 := Opened(a, yes)], {}, map[a := []])
  }

  /** The first of them has denied it. */
  function OneDenied(a: string, no: string, yes: string): World {
    World(map[a := Fresh(L.Denied, Some(2))], map[Ballot(a, no) := false], map[1 := Opened(a, yes)], {},
      map[a := [L.Denied]])
  }

  lemma ReachTwoOpen(a: string, no: string, yes: string, rest: seq<Step>) returns (steps: seq<Step>)
    requires CanRun(TwoOpen(a, no, yes), rest)
    ensures CanRun(Start(), steps) && Run(Start(), steps) == Run(TwoOpen(a, no, yes), rest)
  {
    var submit := Submit(a, L.Pending, 1, LIFE, 0);
    var w1 := Next(Start(), submit);
    var w2 := Next(w1, Open(0, a, no, 1));
    Cons(w2, Open(1, a, yes, 1), rest);
    steps := [Open(1, a, yes, 1)] + rest;
    Cons(w1, Open(0, a, no, 1), steps);
    steps := [Open(0, a, no, 1)] + steps;
    Cons(Start(), submit, steps);
    steps := [submit] + steps;
  }

  lemma ReachOneDenied(a: string, no: string, yes: string, rest: seq<Step>) returns (steps: seq<Step>)
    requires CanRun(OneDenied(a, no, yes), rest)
    ensures CanRun(TwoOpen(a, no, yes), steps) && Run(TwoOpen(a, no, yes), steps) == Run(OneDenied(a, no, yes), rest)
  {
    var w := TwoOpen(a, no, yes);
    var w1 := Next(w, Cast(0, false, 2));
    assert w1.phases == map[0 := Refusing(a), 1 := Opened(a, yes)];
    var w2 := Next(w1, Write(0, 2));
    assert w2.written == map[a := [] + [L.Denied]] && [] + [L.Denied] == [L.Denied];
    assert w2 == OneDenied(a, no, yes);
    Cons(w1, Write(0, 2), rest);
    Cons(w, Cast(0, false, 2), [Write(0, 2)] + rest);
    steps := [Cast(0, false, 2)] + ([Write(0, 2)] + rest);
  }

  /** From an empty table: an action is denied, and then marked approved. */
  lemma DenialOverwritten(a: string, no: string, yes: string) returns (steps: seq<Step>)
    requires no != yes
    ensures CanRun(Start(), steps)
    ensures var w := Run(Start(), steps);
            a in w.rows && w.rows[a].status == L.Approved && HasDenial(w, a)
              && w.written == map[a := [L.Denied, L.Approved]]
  {
    var w := OneDenied(a, no, yes);
    assert yes in UnvotedApprovers(w, a) by { assert Unvoted(w, w.phases[1], a); }
    assert |Potential(w, a)| >= 1;
    steps := LateApproval(w, 1, a, 3);
    VotesAreFinal(w, steps, Ballot(a, no), a);
    assert HasDenial(Run(w, steps), a) by { assert !Run(w, steps).decisions[Ballot(a, no)]; }
    assert [L.Denied] + [L.Approved] == [L.Denied, L.Approved];
    steps := ReachOneDenied(a, no, yes, steps);
    steps := ReachTwoOpen(a, no, yes, steps);
  }
}
