/**
 * The recovery action runner. Runs interleave at their awaits with each other and with wallet
 * switches; every awaited call may return or throw, and receipt projection may throw.
 */
module RecoveryRunner {
  import opened Basics

  /** An active-account record; two records are the same account epoch when all fields agree. */
  datatype Account = Account(version: nat, address: string, connectorId: string, epoch: nat)

  datatype Phase =
    | AwaitCredential
    | AwaitClaim
    | AwaitRecover
    | CatchRead      // re-reading the receipt after a poll-proof error
    | CatchProject   // refreshing the projection after any other error
    | Over

  datatype Run = Run(allocationId: string, captured: Account, phase: Phase, claimed: bool)

  datatype Event = Projection | PendingOn | PendingOff | ErrorShown

  /** A callback as it fired: for which run's account, and which account was current then. */
  datatype Callback = Callback(event: Event, allocationId: string, captured: Account, current: Option<Account>)

  datatype State = State(
    current: Option<Account>, pending: set<string>, runs: seq<Run>, log: seq<Callback>)

  /** What run(allocationId) finds: a blocked projection, the mapping's owner, and a usable route. */
  datatype Facts = Facts(blocked: bool, owner: Option<string>, routeOk: bool)

  /** How the awaited call fares, and whether the projection that follows throws. */
  datatype Outcome =
    | Returns(resultHasError: bool, projectThrows: bool)
    | Throws(manualReviewCode: bool, projectThrows: bool)

  datatype Step =
    | Begin(allocationId: string, facts: Facts)
    | Resume(run: nat, outcome: Outcome)
    | Switch(next: Option<Account>)

  function Fire(s: State, event: Event, r: Run): State {
    s.(log := s.log + [Callback(event, r.allocationId, r.captured, s.current)])
  }

  predicate IsCurrent(s: State, r: Run) {
    s.current == Some(r.captured)
  }

  /** The finally block. */
  function Finish(s: State, i: nat, r: Run): State
    requires i < |s.runs|
  {
    var s' := s.(pending := s.pending - {r.allocationId}, runs := s.runs[i := r.(phase := Over)]);
    if IsCurrent(s, r) then Fire(s', PendingOff, r) else s'
  }

  /** The catch block up to its read, which only happens while the account is current. */
  function Catch(s: State, i: nat, r: Run, manualReviewCode: bool): State
    requires i < |s.runs|
  {
    if !IsCurrent(s, r) then Finish(s, i, r)
    else s.(runs := s.runs[i := r.(phase := if manualReviewCode && r.claimed then CatchRead else CatchProject)])
  }

  function ResumeRun(s: State, i: nat, outcome: Outcome): State
    requires i < |s.runs|
  {
    var r := s.runs[i];
    var changed := !IsCurrent(s, r);
    match r.phase
    case AwaitCredential =>
      if outcome.Throws? then Catch(s, i, r, outcome.manualReviewCode)
      else if changed then Catch(s, i, r, false)
      else s.(runs := s.runs[i := r.(phase := AwaitClaim)])
    case AwaitClaim =>
      if outcome.Throws? then Catch(s, i, r, outcome.manualReviewCode)
      else
        var claimed := r.(claimed := true);
        if changed then Catch(s, i, claimed, false)
        else s.(runs := s.runs[i := claimed.(phase := AwaitRecover)])
    case AwaitRecover =>
      if outcome.Throws? then Catch(s, i, r, outcome.manualReviewCode)
      else if changed || outcome.projectThrows then Catch(s, i, r, false)
      else
        var shown := Fire(s, Projection, r);
        Finish(if outcome.resultHasError then Fire(shown, ErrorShown, r) else shown, i, r)
    case CatchRead =>
      if changed || outcome.projectThrows then Finish(s, i, r)
      else Finish(Fire(Fire(s, Projection, r), ErrorShown, r), i, r)
    case CatchProject =>
      if changed then Finish(s, i, r)
      else if outcome.Throws? || outcome.projectThrows then Finish(Fire(s, ErrorShown, r), i, r)
      else Finish(Fire(Fire(s, Projection, r), ErrorShown, r), i, r)
    case Over => s
  }

  function Apply(s: State, step: Step): State {
    match step
    case Begin(a, facts) =>
      if a in s.pending || facts.blocked then s
      else if s.current.None? || s.current.value.version != 1 then s
      else if facts.owner != Some(s.current.value.address) || !facts.routeOk then s
      else
        var r := Run(a, s.current.value, AwaitCredential, false);
        Fire(s, PendingOn, r).(pending := s.pending + {a}, runs := s.runs + [r])
    case Resume(i, outcome) => if i < |s.runs| then ResumeRun(s, i, outcome) else s
    case Switch(next) => s.(current := next)
  }

  function Exec(steps: seq<Step>): State {
    if steps == [] then State(None, {}, [], []) else Apply(Exec(steps[..|steps| - 1]), steps[|steps| - 1])
  }

  // ---- The invariant ----

  predicate Holds(r: Run, a: string) {
    r.allocationId == a && !r.phase.Over?
  }

  ghost predicate PendingOk(s: State) {
    && (forall i :: 0 <= i < |s.runs| && !s.runs[i].phase.Over? ==> s.runs[i].allocationId in s.pending)
    && (forall i, j :: 0 <= i < j < |s.runs| && !s.runs[i].phase.Over? && !s.runs[j].phase.Over?
          ==> s.runs[i].allocationId != s.runs[j].allocationId)
    && (forall a :: a in s.pending ==> exists i :: 0 <= i < |s.runs| && Holds(s.runs[i], a))
  }

  predicate Addressed(c: Callback) {
    c.current == Some(c.captured)
  }

  ghost predicate LogOk(s: State) {
    forall k :: 0 <= k < |s.log| ==> Addressed(s.log[k])
  }

  /** A resumed run either stays in its place or ends and gives up its mark. */
  predicate Moves(s: State, i: nat, s': State)
    requires i < |s.runs|
  {
    && s'.current == s.current
    && |s'.runs| == |s.runs|
    && var r, r' := s.runs[i], s'.runs[i];
    && s'.runs == s.runs[i := r'] && r'.allocationId == r.allocationId && r'.captured == r.captured
    && (if r.phase.Over? then r' == r && s'.pending == s.pending
        else if r'.phase.Over? then s'.pending == s.pending - {r.allocationId}
        else s'.pending == s.pending)
  }

  lemma {:induction false} ResumeMoves(s: State, i: nat, outcome: Outcome)
    requires i < |s.runs|
    ensures Moves(s, i, ResumeRun(s, i, outcome))
  {
  }

  /** Whatever a resumed run fires, it fires for the account that is current. */
  lemma {:induction false} ResumeAddresses(s: State, i: nat, outcome: Outcome)
    requires i < |s.runs| && LogOk(s)
    ensures LogOk(ResumeRun(s, i, outcome))
  {
  }

  lemma {:induction false} MoveKeepsPending(s: State, i: nat, s': State)
    requires PendingOk(s) && i < |s.runs| && Moves(s, i, s')
    ensures PendingOk(s')
  {
    var r := s.runs[i];
    forall a | a in s'.pending ensures exists k :: 0 <= k < |s'.runs| && Holds(s'.runs[k], a) {
      var k :| 0 <= k < |s.runs| && Holds(s.runs[k], a);
      assert Holds(s'.runs[k], a);
    }
  }

  lemma {:induction false} BeginKeepsPending(s: State, step: Step)
    requires PendingOk(s) && step.Begin?
    ensures PendingOk(Apply(s, step))
  {
    var s' := Apply(s, step);
    forall a | a in s'.pending ensures exists k :: 0 <= k < |s'.runs| && Holds(s'.runs[k], a) {
      if a in s.pending {
        var k :| 0 <= k < |s.runs| && Holds(s.runs[k], a);
        assert Holds(s'.runs[k], a);
      } else {
        assert Holds(s'.runs[|s.runs|], a);
      }
    }
  }

  lemma {:induction false} ReachableOk(steps: seq<Step>)
    ensures PendingOk(Exec(steps)) && LogOk(Exec(steps))
  {
    if steps != [] {
      var s, step := Exec(steps[..|steps| - 1]), steps[|steps| - 1];
      ReachableOk(steps[..|steps| - 1]);
      match step
      case Begin(_, _) => BeginKeepsPending(s, step);
      case Resume(i, outcome) =>
        if i < |s.runs| {
          ResumeMoves(s, i, outcome);
          MoveKeepsPending(s, i, ResumeRun(s, i, outcome));
          ResumeAddresses(s, i, outcome);
        }
      case Switch(_) =>
        forall a | a in s.pending ensures exists k :: 0 <= k < |s.runs| && Holds(s.runs[k], a) {
        }
    }
  }

  // ---- Main results ----

  /** In every run at most one run per allocation is under way. */
  lemma {:induction false} OneRunPerAllocation(steps: seq<Step>, i: nat, j: nat)
    requires i < |Exec(steps).runs| && j < |Exec(steps).runs|
    requires !Exec(steps).runs[i].phase.Over? && !Exec(steps).runs[j].phase.Over?
    requires Exec(steps).runs[i].allocationId == Exec(steps).runs[j].allocationId
    ensures i == j
  {
    ReachableOk(steps);
  }

  /** The pending marks are exactly the allocations of runs under way: a run that ends releases its mark. */
  lemma {:induction false} MarksAreReleased(steps: seq<Step>, a: string)
    ensures a in Exec(steps).pending <==>
              exists i :: 0 <= i < |Exec(steps).runs| && Holds(Exec(steps).runs[i], a)
  {
    ReachableOk(steps);
  }

  /** Every projection, pending and error callback fires while the run's own account is the current one. */
  lemma {:induction false} CallbacksAreAddressed(steps: seq<Step>, k: nat)
    requires k < |Exec(steps).log|
    ensures Exec(steps).log[k].current == Some(Exec(steps).log[k].captured)
  {
    ReachableOk(steps);
    assert Addressed(Exec(steps).log[k]);
  }

  /** The rank of a phase: every resumption of a run under way brings it nearer to its end. */
  function Rank(p: Phase): nat {
    match p
    case AwaitCredential => 4
    case AwaitClaim => 3
    case AwaitRecover => 2
    case CatchRead => 1
    case CatchProject => 1
    case Over => 0
  }

  /** So a run whose awaited calls all settle ends after at most four resumptions, releasing its mark. */
  lemma {:induction false} RunsEnd(s: State, i: nat, outcome: Outcome)
    requires i < |s.runs| && !s.runs[i].phase.Over?
    ensures Rank(ResumeRun(s, i, outcome).runs[i].phase) < Rank(s.runs[i].phase)
    ensures ResumeRun(s, i, outcome).runs[i].phase.Over? ==> s.runs[i].allocationId !in ResumeRun(s, i, outcome).pending
  {
  }

  // ---- A run that no switch and no other run disturbs ----

  /** Run i resumes with each of these outcomes in turn. */
  function ResumeAll(s: State, i: nat, outcomes: seq<Outcome>): State
    decreases |outcomes|
  {
    if outcomes == [] then s else ResumeAll(Apply(s, Resume(i, outcomes[0])), i, outcomes[1..])
  }

  lemma {:induction false} ResumesNext(s: State, i: nat, o: Outcome, rest: seq<Outcome>)
    ensures ResumeAll(s, i, [o] + rest) == ResumeAll(Apply(s, Resume(i, o)), i, rest)
  {
    assert ([o] + rest)[1..] == rest;
  }

  lemma {:induction false} ResumesTwice(s: State, i: nat, o: Outcome, p: Outcome)
    ensures ResumeAll(s, i, [o]) == Apply(s, Resume(i, o))
    ensures ResumeAll(s, i, [o, p]) == Apply(Apply(s, Resume(i, o)), Resume(i, p))
  {
    ResumesNext(s, i, o, []);
    ResumesNext(Apply(s, Resume(i, o)), i, p, []);
    ResumesNext(s, i, o, [p]);
    assert [o] + [p] == [o, p] && [o] + [] == [o] && [p] + [] == [p];
  }

  function RunAlone(s: State, a: string, facts: Facts, outcomes: seq<Outcome>): State {
    ResumeAll(Apply(s, Begin(a, facts)), |s.runs|, outcomes)
  }

  /** The run may begin: not pending, not blocked, and its mapping belongs to the active account. */
  predicate MayBegin(s: State, a: string, facts: Facts) {
    && a !in s.pending && !facts.blocked && facts.routeOk
    && s.current.Some? && s.current.value.version == 1 && facts.owner == Some(s.current.value.address)
  }

  /** These callbacks fire, in this order, for the active account. */
  function Fired(a: string, account: Account, events: seq<Event>): seq<Callback> {
    seq(|events|, n requires 0 <= n < |events| => Callback(events[n], a, account, Some(account)))
  }

  /** The run is in this phase, and exactly these callbacks have fired. */
  predicate Stands(s: State, s': State, a: string, phase: Phase, claimed: bool, events: seq<Event>)
    requires s.current.Some?
  {
    && s'.current == s.current && s'.pending == s.pending + {a}
    && s'.runs == s.runs + [Run(a, s.current.value, phase, claimed)]
    && s'.log == s.log + Fired(a, s.current.value, events)
  }

  /** The run is over, its mark released, and exactly these callbacks have fired. */
  predicate RanTo(s: State, s': State, a: string, events: seq<Event>)
    requires s.current.Some?
  {
    && s'.current == s.current && s'.pending == s.pending
    && |s'.runs| == |s.runs| + 1 && s'.runs[..|s.runs|] == s.runs && s'.runs[|s.runs|].phase.Over?
    && s'.log == s.log + Fired(a, s.current.value, events)
  }

  /** A run begins exactly when it may; a run that may not begin changes nothing. */
  lemma {:induction false} BeginsExactly(s: State, a: string, facts: Facts)
    ensures MayBegin(s, a, facts) ==> Stands(s, Apply(s, Begin(a, facts)), a, AwaitCredential, false, [PendingOn])
    ensures !MayBegin(s, a, facts) ==> Apply(s, Begin(a, facts)) == s
  {
    if MayBegin(s, a, facts) {
      assert Fired(a, s.current.value, [PendingOn]) == [Callback(PendingOn, a, s.current.value, s.current)];
    }
  }

  lemma {:induction false} FiredAdds(a: string, account: Account, x: seq<Event>, y: seq<Event>)
    ensures Fired(a, account, x + y) == Fired(a, account, x) + Fired(a, account, y)
  {
  }

  /** A call that returns moves an undisturbed run on to the next. */
  lemma {:induction false} MovesOn(s: State, s': State, a: string, phase: Phase, claimed: bool, outcome: Outcome)
    requires s.current.Some? && Stands(s, s', a, phase, claimed, [PendingOn])
    requires phase.AwaitCredential? || phase.AwaitClaim? || phase.AwaitRecover?
    ensures var after := Apply(s', Resume(|s.runs|, outcome));
            && (phase.AwaitCredential? && outcome.Returns? ==> Stands(s, after, a, AwaitClaim, claimed, [PendingOn]))
            && (phase.AwaitClaim? && outcome.Returns? ==> Stands(s, after, a, AwaitRecover, true, [PendingOn]))
            && (outcome.Throws? ==>
                  Stands(s, after, a, if outcome.manualReviewCode && claimed then CatchRead else CatchProject, claimed,
                         [PendingOn]))
  {
  }

  /** The finally block of an undisturbed run. */
  lemma {:induction false} Ends(s: State, s': State, a: string, phase: Phase, claimed: bool, events: seq<Event>)
    requires s.current.Some? && a !in s.pending && Stands(s, s', a, phase, claimed, events)
    ensures RanTo(s, Finish(s', |s.runs|, s'.runs[|s.runs|]), a, events + [PendingOff])
  {
    FiredAdds(a, s.current.value, events, [PendingOff]);
    assert Fired(a, s.current.value, [PendingOff]) == [Callback(PendingOff, a, s.current.value, s.current)];
  }

  /** One more callback of an undisturbed run. */
  lemma {:induction false} Fires(
      s: State, s': State, a: string, phase: Phase, claimed: bool, events: seq<Event>, event: Event)
    requires s.current.Some? && Stands(s, s', a, phase, claimed, events)
    ensures Stands(s, Fire(s', event, s'.runs[|s.runs|]), a, phase, claimed, events + [event])
  {
    FiredAdds(a, s.current.value, events, [event]);
    assert Fired(a, s.current.value, [event]) == [Callback(event, a, s.current.value, s.current)];
  }

  /** After two calls that return the run awaits the recovery itself. */
  lemma {:induction false} ReachRecover(
      s: State, a: string, facts: Facts, o: Outcome, p: Outcome, rest: seq<Outcome>) returns (s3: State)
    requires MayBegin(s, a, facts) && o.Returns? && p.Returns?
    ensures Stands(s, s3, a, AwaitRecover, true, [PendingOn])
    ensures RunAlone(s, a, facts, [o, p] + rest) == ResumeAll(s3, |s.runs|, rest)
  {
    var i := |s.runs|;
    BeginsExactly(s, a, facts);
    var s1 := Apply(s, Begin(a, facts));
    MovesOn(s, s1, a, AwaitCredential, false, o);
    var s2 := Apply(s1, Resume(i, o));
    MovesOn(s, s2, a, AwaitClaim, false, p);
    s3 := Apply(s2, Resume(i, p));
    ResumesNext(s1, i, o, [p] + rest);
    ResumesNext(s2, i, p, rest);
    assert [o] + ([p] + rest) == [o, p] + rest;
  }

  /** A successful run projects exactly once, and shows the error that its result carries, if any. */
  lemma {:induction false} SuccessProjectsOnce(
      s: State, a: string, facts: Facts, o: Outcome, p: Outcome, hasError: bool)
    requires MayBegin(s, a, facts) && o.Returns? && p.Returns?
    ensures RanTo(s, RunAlone(s, a, facts, [o, p] + [Returns(hasError, false)]), a,
              if hasError then [PendingOn, Projection, ErrorShown, PendingOff] else [PendingOn, Projection, PendingOff])
  {
    var last := Returns(hasError, false);
    var s3 := ReachRecover(s, a, facts, o, p, [last]);
    ResumesTwice(s3, |s.runs|, last, last);
    Fires(s, s3, a, AwaitRecover, true, [PendingOn], Projection);
    var s4 := Fire(s3, Projection, s3.runs[|s.runs|]);
    assert [PendingOn] + [Projection] == [PendingOn, Projection];
    if hasError {
      Fires(s, s4, a, AwaitRecover, true, [PendingOn, Projection], ErrorShown);
      var s5 := Fire(s4, ErrorShown, s3.runs[|s.runs|]);
      assert [PendingOn, Projection] + [ErrorShown] == [PendingOn, Projection, ErrorShown];
      Ends(s, s5, a, AwaitRecover, true, [PendingOn, Projection, ErrorShown]);
      assert [PendingOn, Projection, ErrorShown] + [PendingOff] == [PendingOn, Projection, ErrorShown, PendingOff];
    } else {
      Ends(s, s4, a, AwaitRecover, true, [PendingOn, Projection]);
      assert [PendingOn, Projection] + [PendingOff] == [PendingOn, Projection, PendingOff];
    }
  }

  /** What an undisturbed failure comes to, once the catch block has read or refreshed. */
  function CaughtEvents(reread: bool, refresh: Outcome): seq<Event> {
    if reread then
      if refresh.projectThrows then [PendingOn, PendingOff] else [PendingOn, Projection, ErrorShown, PendingOff]
    else if refresh.Returns? && !refresh.projectThrows then [PendingOn, Projection, ErrorShown, PendingOff]
    else [PendingOn, ErrorShown, PendingOff]
  }

  lemma {:induction false} CatchEnds(s: State, s': State, a: string, reread: bool, claimed: bool, refresh: Outcome)
    requires s.current.Some? && a !in s.pending
    requires Stands(s, s', a, if reread then CatchRead else CatchProject, claimed, [PendingOn])
    ensures RanTo(s, Apply(s', Resume(|s.runs|, refresh)), a, CaughtEvents(reread, refresh))
  {
    var phase := if reread then CatchRead else CatchProject;
    var r := s'.runs[|s.runs|];
    var projected := Fire(s', Projection, r);
    Fires(s, s', a, phase, claimed, [PendingOn], Projection);
    Fires(s, s', a, phase, claimed, [PendingOn], ErrorShown);
    assert [PendingOn] + [Projection] == [PendingOn, Projection];
    assert [PendingOn] + [ErrorShown] == [PendingOn, ErrorShown];
    Fires(s, projected, a, phase, claimed, [PendingOn, Projection], ErrorShown);
    var events := [PendingOn, Projection, ErrorShown];
    assert [PendingOn, Projection] + [ErrorShown] == events;
    Ends(s, Fire(projected, ErrorShown, r), a, phase, claimed, events);
    Ends(s, Fire(s', ErrorShown, r), a, phase, claimed, [PendingOn, ErrorShown]);
    Ends(s, s', a, phase, claimed, [PendingOn]);
    assert events + [PendingOff] == [PendingOn, Projection, ErrorShown, PendingOff];
    assert [PendingOn, ErrorShown] + [PendingOff] == [PendingOn, ErrorShown, PendingOff];
    assert [PendingOn] + [PendingOff] == [PendingOn, PendingOff];
  }

  /**
   * A run that fails for its credential or its claim refreshes the projection and shows the error; the
   * error is shown even when the refresh fails.
   */
  lemma {:induction false} EarlyFailureIsShown(
      s: State, a: string, facts: Facts, o: Outcome, failure: Outcome, refresh: Outcome)
    requires MayBegin(s, a, facts) && o.Returns? && failure.Throws?
    ensures RanTo(s, RunAlone(s, a, facts, [failure, refresh]), a, CaughtEvents(false, refresh))
    ensures RanTo(s, RunAlone(s, a, facts, [o, failure, refresh]), a, CaughtEvents(false, refresh))
  {
    var i := |s.runs|;
    BeginsExactly(s, a, facts);
    var s1 := Apply(s, Begin(a, facts));
    MovesOn(s, s1, a, AwaitCredential, false, failure);
    CatchEnds(s, Apply(s1, Resume(i, failure)), a, false, false, refresh);
    ResumesTwice(s1, i, failure, refresh);
    MovesOn(s, s1, a, AwaitCredential, false, o);
    var s2 := Apply(s1, Resume(i, o));
    MovesOn(s, s2, a, AwaitClaim, false, failure);
    CatchEnds(s, Apply(s2, Resume(i, failure)), a, false, false, refresh);
    ResumesNext(s1, i, o, [failure, refresh]);
    ResumesTwice(s2, i, failure, refresh);
    assert [o] + [failure, refresh] == [o, failure, refresh];
  }

  /**
   * A run whose recovery fails does the same; for a poll-proof error it projects the claim even when
   * the receipt cannot be read again.
   */
  lemma {:induction false} LateFailureIsShown(
      s: State, a: string, facts: Facts, o: Outcome, p: Outcome, failure: Outcome, refresh: Outcome)
    requires MayBegin(s, a, facts) && o.Returns? && p.Returns? && failure.Throws?
    ensures RanTo(s, RunAlone(s, a, facts, [o, p] + [failure, refresh]), a,
                  CaughtEvents(failure.manualReviewCode, refresh))
  {
    var s3 := ReachRecover(s, a, facts, o, p, [failure, refresh]);
    MovesOn(s, s3, a, AwaitRecover, true, failure);
    CatchEnds(s, Apply(s3, Resume(|s.runs|, failure)), a, failure.manualReviewCode, true, refresh);
    ResumesTwice(s3, |s.runs|, failure, refresh);
  }
}
