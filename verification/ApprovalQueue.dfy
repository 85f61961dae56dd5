/**
 * The extension's approval queue. Requests wait on one promise chain for their approval window;
 * ceremony results, closed windows, account changes and failed window creation race to settle
 * them. Requests are named by their place in the chain, since every rid is a fresh UUID.
 */
module ApprovalQueue {
  import opened Basics

  /** What a page is told: the ceremony's payload, or an error. */
  datatype Reply = CeremonyAnswer(payload: string) | SnapshotInvalid | UserRejected | AccountChanged | WindowFailed

  /** account is None when no account was unambiguously active at the request. */
  datatype Entry = Entry(
    account: Option<string>, windowId: Option<int>, settled: bool, hasRelease: bool, replies: seq<Reply>)

  /** Where the chain is in the task of its head: due to start, awaiting windows.create, or awaiting release. */
  datatype Phase = Ready | Creating | Waiting

  /** shown lists the requests windows.create was called for, in order. */
  datatype State = State(entries: seq<Entry>, pending: set<nat>, head: nat, phase: Phase, shown: seq<nat>)

  const START: State := State([], {}, 0, Ready, [])

  datatype Step =
    | Enqueue(account: Option<string>)
    | StartTask
    | WindowCreated(windowId: Option<int>)
    | WindowFails
    | CeremonyResult(request: nat, payload: string, valid: bool)
    | WindowRemoved(closed: int)
    | AccountMismatch(request: nat, current: Option<string>)

  /** settleDappRequest: reply, mark, and call release when the chain waits for this entry. */
  function Settle(s: State, i: nat, reply: Reply): State {
    if i !in s.pending || i >= |s.entries| then s
    else
      var e := s.entries[i];
      var s' := s.(
        pending := s.pending - {i},
        entries := s.entries[i := e.(settled := true, replies := e.replies + [reply])]);
      if e.hasRelease && i == s.head && s.phase.Waiting? then s'.(head := s.head + 1, phase := Ready) else s'
  }

  /** Settle every pending request below n whose approval window is the closed one. */
  function SettleClosed(s: State, closed: int, n: nat): State {
    if n == 0 then s
    else
      var s' := SettleClosed(s, closed, n - 1);
      if n - 1 < |s'.entries| && s'.entries[n - 1].windowId == Some(closed) && !s'.entries[n - 1].settled
      then Settle(s', n - 1, UserRejected)
      else s'
  }

  /** The account under which the request was made is the one active now. */
  predicate Matches(e: Entry, current: Option<string>) {
    current.Some? && e.account == current
  }

  function Apply(s: State, step: Step): State {
    match step
    case Enqueue(account) =>
      s.(entries := s.entries + [Entry(account, None, false, false, [])], pending := s.pending + {|s.entries|})
    case StartTask =>
      if !s.phase.Ready? || s.head >= |s.entries| then s
      else if s.entries[s.head].settled then s.(head := s.head + 1)
      else s.(phase := Creating, shown := s.shown + [s.head])
    case WindowCreated(windowId) =>
      if !s.phase.Creating? || s.head >= |s.entries| then s
      else
        var e := s.entries[s.head].(windowId := windowId);
        if e.settled then s.(entries := s.entries[s.head := e], head := s.head + 1, phase := Ready)
        else s.(entries := s.entries[s.head := e.(hasRelease := true)], phase := Waiting)
    case WindowFails =>
      if !s.phase.Creating? || s.head >= |s.entries| then s
      else Settle(s, s.head, WindowFailed).(head := s.head + 1, phase := Ready)
    case CeremonyResult(i, payload, valid) => Settle(s, i, if valid then CeremonyAnswer(payload) else SnapshotInvalid)
    case WindowRemoved(closed) => SettleClosed(s, closed, |s.entries|)
    case AccountMismatch(i, current) =>
      if i < |s.entries| && !Matches(s.entries[i], current) then Settle(s, i, AccountChanged) else s
  }

  function Exec(steps: seq<Step>): State {
    if steps == [] then START else Apply(Exec(steps[..|steps| - 1]), steps[|steps| - 1])
  }

  // ---- The invariant ----

  predicate EntryOk(s: State, i: nat)
    requires i < |s.entries|
  {
    var e := s.entries[i];
    && (i in s.pending <==> !e.settled)
    && |e.replies| == (if e.settled then 1 else 0)
    && (i < s.head ==> e.settled)
    && (!e.settled && (e.windowId.Some? || e.hasRelease) ==> i == s.head && s.phase.Waiting?)
  }

  ghost predicate Inv(s: State) {
    && (forall i :: i in s.pending ==> i < |s.entries|)
    && (forall i :: 0 <= i < |s.entries| ==> EntryOk(s, i))
    && s.head <= |s.entries|
    && (!s.phase.Ready? ==> s.head < |s.entries|)
    && (s.phase.Waiting? ==> !s.entries[s.head].settled && s.entries[s.head].hasRelease)
    && (forall k :: 0 <= k < |s.shown| ==> s.shown[k] < s.head + (if s.phase.Ready? then 0 else 1))
    && (forall j, k :: 0 <= j < k < |s.shown| ==> s.shown[j] < s.shown[k])
  }

  lemma {:induction false} SettleKeepsInv(s: State, i: nat, reply: Reply)
    requires Inv(s)
    ensures Inv(Settle(s, i, reply)) && |Settle(s, i, reply).entries| == |s.entries|
  {
    var s' := Settle(s, i, reply);
    if i in s.pending {
      assert EntryOk(s, i);
      forall k | 0 <= k < |s'.entries| ensures EntryOk(s', k) {
        assert EntryOk(s, k);
      }
    }
  }

  lemma {:induction false} SettleClosedKeepsInv(s: State, closed: int, n: nat)
    requires Inv(s) && n <= |s.entries|
    ensures Inv(SettleClosed(s, closed, n)) && |SettleClosed(s, closed, n).entries| == |s.entries|
  {
    if n > 0 {
      SettleClosedKeepsInv(s, closed, n - 1);
      SettleKeepsInv(SettleClosed(s, closed, n - 1), n - 1, UserRejected);
    }
  }

  lemma {:induction false} ApplyKeepsInv(s: State, step: Step)
    requires Inv(s)
    ensures Inv(Apply(s, step))
  {
    match step
    case CeremonyResult(i, payload, valid) =>
      SettleKeepsInv(s, i, if valid then CeremonyAnswer(payload) else SnapshotInvalid);
    case WindowRemoved(closed) => SettleClosedKeepsInv(s, closed, |s.entries|);
    case AccountMismatch(i, _) => SettleKeepsInv(s, i, AccountChanged);
    case WindowFails =>
      if s.phase.Creating? {
        assert EntryOk(s, s.head);
        SettleKeepsInv(s, s.head, WindowFailed);
        var s1, s' := Settle(s, s.head, WindowFailed), Apply(s, step);
        forall k | 0 <= k < |s'.entries| ensures EntryOk(s', k) {
          assert EntryOk(s1, k);
        }
      }
    case _ =>
      var s' := Apply(s, step);
      forall k | 0 <= k < |s'.entries| ensures EntryOk(s', k) {
        if k < |s.entries| {
          assert EntryOk(s, k);
        }
      }
  }

  lemma {:induction false} ReachableInv(steps: seq<Step>)
    ensures Inv(Exec(steps))
  {
    if steps != [] {
      ReachableInv(steps[..|steps| - 1]);
      ApplyKeepsInv(Exec(steps[..|steps| - 1]), steps[|steps| - 1]);
    }
  }

  // ---- Main results ----

  /** In every run a request has been replied to once if it is settled, and not at all otherwise. */
  lemma {:induction false} RepliedExactlyOnce(steps: seq<Step>, i: nat)
    requires i < |Exec(steps).entries|
    ensures var e := Exec(steps).entries[i];
            |e.replies| == if e.settled then 1 else 0
  {
    ReachableInv(steps);
    assert EntryOk(Exec(steps), i);
  }

  lemma {:induction false} SettleClosedKeepsSettled(s: State, closed: int, n: nat, i: nat)
    requires Inv(s) && n <= |s.entries| && i < |s.entries| && s.entries[i].settled
    ensures var s' := SettleClosed(s, closed, n);
            |s'.entries| == |s.entries| && s'.entries[i] == s.entries[i]
  {
    if n > 0 {
      SettleClosedKeepsSettled(s, closed, n - 1, i);
      SettleClosedKeepsInv(s, closed, n - 1);
      assert EntryOk(SettleClosed(s, closed, n - 1), i);
    }
  }

  /** A reply, once given, is never replaced or repeated by later steps. */
  lemma {:induction false} RepliesAreFinal(steps: seq<Step>, step: Step, i: nat)
    requires i < |Exec(steps).entries| && Exec(steps).entries[i].settled
    ensures i < |Exec(steps + [step]).entries|
    ensures Exec(steps + [step]).entries[i].settled
    ensures Exec(steps + [step]).entries[i].replies == Exec(steps).entries[i].replies
  {
    ReachableInv(steps);
    assert (steps + [step])[..|steps|] == steps;
    var s := Exec(steps);
    assert EntryOk(s, i);
    if step.WindowRemoved? {
      SettleClosedKeepsSettled(s, step.closed, |s.entries|, i);
    }
  }

  /** In every run at most one unsettled request has an approval window: the head of the chain. */
  lemma {:induction false} OneOpenWindow(steps: seq<Step>, i: nat, j: nat)
    requires i < |Exec(steps).entries| && j < |Exec(steps).entries|
    requires !Exec(steps).entries[i].settled && Exec(steps).entries[i].windowId.Some?
    requires !Exec(steps).entries[j].settled && Exec(steps).entries[j].windowId.Some?
    ensures i == j == Exec(steps).head
  {
    ReachableInv(steps);
    assert EntryOk(Exec(steps), i) && EntryOk(Exec(steps), j);
  }

  /** In every run windows are shown in queue order, and never twice for one request. */
  lemma {:induction false} WindowsOpenInOrder(steps: seq<Step>, j: nat, k: nat)
    requires j < k < |Exec(steps).shown|
    ensures Exec(steps).shown[j] < Exec(steps).shown[k]
  {
    ReachableInv(steps);
  }

  /** No lost wake-up: the chain never waits for a request that is already settled. */
  lemma {:induction false} NoLostWakeUp(steps: seq<Step>)
    ensures var s := Exec(steps);
            s.head < |s.entries| && s.entries[s.head].settled ==> !s.phase.Waiting?
    ensures forall i :: 0 <= i < |Exec(steps).entries| && !Exec(steps).entries[i].settled ==> i >= Exec(steps).head
  {
    ReachableInv(steps);
    var s := Exec(steps);
    forall i | 0 <= i < |s.entries| && !s.entries[i].settled ensures i >= s.head {
      assert EntryOk(s, i);
    }
  }

  /** The chain runs n tasks on its own, with nothing else happening. */
  function Drain(s: State, n: nat): State
    decreases n
  {
    if n == 0 then s else Drain(Apply(s, StartTask), n - 1)
  }

  /** Past settled requests the chain reaches the next unsettled one and opens its window, by itself. */
  lemma {:induction false} ChainReachesNextUnsettled(s: State, j: nat)
    requires Inv(s) && s.phase.Ready? && s.head <= j < |s.entries|
    requires !s.entries[j].settled
    requires forall k :: s.head <= k < j ==> s.entries[k].settled
    ensures var s' := Drain(s, j - s.head + 1);
            s'.head == j && s'.phase.Creating? && s'.shown == s.shown + [j] && s'.entries == s.entries
    decreases j - s.head
  {
    if s.head < j {
      ApplyKeepsInv(s, StartTask);
      ChainReachesNextUnsettled(Apply(s, StartTask), j);
    } else {
      assert Drain(Apply(s, StartTask), 0) == Apply(s, StartTask);
    }
  }

  /**
   * Liveness of the queue: whatever settles the request at the head, as soon as no window creation
   * is in flight the chain opens the window of the next unsettled request without further help.
   */
  lemma {:induction false} SettledHeadNeverBlocks(steps: seq<Step>, j: nat)
    requires var s := Exec(steps);
             && !s.phase.Creating?
             && s.head < |s.entries| && s.entries[s.head].settled
             && s.head < j < |s.entries| && !s.entries[j].settled
             && forall k :: s.head <= k < j ==> s.entries[k].settled
    ensures var s := Exec(steps);
            var s' := Drain(s, j - s.head + 1);
            s'.head == j && s'.shown == s.shown + [j]
  {
    ReachableInv(steps);
    ChainReachesNextUnsettled(Exec(steps), j);
  }

  /** What ends the creation of a window: it opened, with or without an id, or it failed. */
  predicate EndsCreation(step: Step) {
    step.WindowCreated? || step.WindowFails?
  }

  /**
   * The race the queue guards against: the head is settled while its window is still being created.
   * However the creation ends, the chain then opens the window of the next unsettled request by itself.
   */
  lemma {:induction false} SettledDuringCreationNeverBlocks(steps: seq<Step>, ending: Step, j: nat)
    requires EndsCreation(ending)
    requires var s := Exec(steps);
             && s.phase.Creating?
             && s.head < j < |s.entries| && !s.entries[j].settled
             && forall k :: s.head <= k < j ==> s.entries[k].settled
    ensures var s := Apply(Exec(steps), ending);
            && s.phase.Ready? && s.head <= j
            && var s' := Drain(s, j - s.head + 1);
            s'.head == j && s'.phase.Creating? && s'.shown == s.shown + [j]
  {
    ReachableInv(steps);
    var s := Exec(steps);
    ApplyKeepsInv(s, ending);
    assert EntryOk(s, s.head);
    ChainReachesNextUnsettled(Apply(s, ending), j);
  }

  // ---- A window closed too early ----

  lemma {:induction false} ClosedUpTo(s: State, closed: int, n: nat, i: nat)
    requires Inv(s) && n <= |s.entries| && i < |s.entries| && !s.entries[i].settled
    ensures var s' := SettleClosed(s, closed, n);
            && |s'.entries| == |s.entries|
            && s'.entries[i].windowId == s.entries[i].windowId
            && (s'.entries[i].settled <==> i < n && s.entries[i].windowId == Some(closed))
  {
    if n > 0 {
      ClosedUpTo(s, closed, n - 1, i);
      SettleClosedKeepsInv(s, closed, n - 1);
      assert EntryOk(SettleClosed(s, closed, n - 1), n - 1);
    }
  }

  /** Closing a window settles an unsettled request exactly if its entry already knows that window. */
  lemma {:induction false} CloseSettlesExactly(steps: seq<Step>, closed: int, i: nat)
    requires i < |Exec(steps).entries| && !Exec(steps).entries[i].settled
    ensures var s' := Apply(Exec(steps), WindowRemoved(closed));
            && |s'.entries| == |Exec(steps).entries|
            && (s'.entries[i].settled <==> Exec(steps).entries[i].windowId == Some(closed))
  {
    ReachableInv(steps);
    ClosedUpTo(Exec(steps), closed, |Exec(steps).entries|, i);
  }

  /** The step settles request i of the reachable state s, if it is unsettled. */
  predicate Settles(s: State, step: Step, i: nat) {
    i < |s.entries| &&
    match step
    case CeremonyResult(k, _, _) => k == i
    case WindowRemoved(closed) => s.entries[i].windowId == Some(closed)
    case AccountMismatch(k, current) => k == i && (current.None? || s.entries[i].account != current)
    case _ => false
  }

  lemma {:induction false} CloseMovesOnlyTheHead(s: State, closed: int, n: nat)
    requires Inv(s) && s.phase.Waiting? && n <= |s.entries|
    ensures var s' := SettleClosed(s, closed, n);
            && s'.shown == s.shown && |s'.entries| == |s.entries|
            && (if s'.entries[s.head].settled then s'.head == s.head + 1 && s'.phase.Ready?
                else s'.head == s.head && s'.phase.Waiting?)
  {
    if n > 0 {
      CloseMovesOnlyTheHead(s, closed, n - 1);
      SettleClosedKeepsInv(s, closed, n - 1);
      var before := SettleClosed(s, closed, n - 1);
      assert EntryOk(before, n - 1) && EntryOk(before, s.head);
    }
  }

  /** While the chain waits it moves on exactly when a step settles its head: nothing else opens a window. */
  lemma {:induction false} WaitsExactlyForItsHead(steps: seq<Step>, step: Step)
    requires Exec(steps).phase.Waiting?
    ensures var s := Exec(steps);
            var s' := Apply(s, step);
            && (Settles(s, step, s.head) <==> !s'.phase.Waiting?)
            && (!Settles(s, step, s.head) ==> s'.head == s.head && s'.shown == s.shown)
  {
    ReachableInv(steps);
    var s := Exec(steps);
    assert EntryOk(s, s.head);
    if step.WindowRemoved? {
      CloseSettlesExactly(steps, step.closed, s.head);
      CloseMovesOnlyTheHead(s, step.closed, |s.entries|);
    }
  }

  lemma {:induction false} ExecNext(steps: seq<Step>, step: Step)
    ensures Exec(steps + [step]) == Apply(Exec(steps), step)
  {
    assert (steps + [step])[..|steps|] == steps;
  }

  /**
   * The user closes the window before windows.create resolves: the close finds no entry with that
   * window, and the chain waits on a window that is gone. By WaitsExactlyForItsHead it then moves on
   * only for a ceremony result or an account change.
   */
  lemma {:induction false} EarlyCloseIsLost(account: Option<string>, id: int) returns (steps: seq<Step>)
    ensures exists k :: 0 <= k < |steps| && steps[k] == WindowRemoved(id)
    ensures var s := Exec(steps);
            && s.phase.Waiting? && s.head == 0 && |s.entries| == 1
            && s.entries[0] == Entry(account, Some(id), false, true, [])
  {
    ExecNext([], Enqueue(account));
    steps := [] + [Enqueue(account)];
    ExecNext(steps, StartTask);
    steps := steps + [StartTask];
    assert Exec(steps).entries == [Entry(account, None, false, false, [])];
    ExecNext(steps, WindowRemoved(id));
    steps := steps + [WindowRemoved(id)];
    assert SettleClosed(Exec(steps[..2]), id, 0) == Exec(steps[..2]);
    assert steps[2] == WindowRemoved(id);
    ExecNext(steps, WindowCreated(Some(id)));
    steps := steps + [WindowCreated(Some(id))];
    assert steps[2] == WindowRemoved(id);
  }

  // ---- Every reply names its cause ----

  /** This step, in this state, is cause for this reply to request i. */
  predicate Causes(s: State, step: Step, i: nat, reply: Reply) {
    i < |s.entries| &&
    match reply
    case CeremonyAnswer(payload) => step == CeremonyResult(i, payload, true)
    case SnapshotInvalid => step.CeremonyResult? && step.request == i && !step.valid
    case UserRejected => step.WindowRemoved? && s.entries[i].windowId == Some(step.closed)
    case AccountChanged =>
      step.AccountMismatch? && step.request == i && (step.current.None? || s.entries[i].account != step.current)
    case WindowFailed => step.WindowFails? && s.phase.Creating? && s.head == i
  }

  lemma {:induction false} CloseRejects(s: State, closed: int, n: nat, i: nat)
    requires Inv(s) && n <= |s.entries| && i < |s.entries| && !s.entries[i].settled
    ensures var s' := SettleClosed(s, closed, n);
            && |s'.entries| == |s.entries|
            && s'.entries[i] == (if i < n && s.entries[i].windowId == Some(closed)
                                 then s.entries[i].(settled := true, replies := [UserRejected]) else s.entries[i])
  {
    if n > 0 {
      CloseRejects(s, closed, n - 1, i);
      SettleClosedKeepsInv(s, closed, n - 1);
      assert EntryOk(s, i) && EntryOk(SettleClosed(s, closed, n - 1), n - 1);
    }
  }

  /** One step settles an unsettled request exactly with a reply it is cause for, and with no other. */
  lemma {:induction false} StepSettlesExactly(steps: seq<Step>, step: Step, i: nat)
    requires i < |Exec(steps).entries| && !Exec(steps).entries[i].settled
    ensures var s := Exec(steps);
            var s' := Apply(s, step);
            && i < |s'.entries|
            && (forall reply :: Causes(s, step, i, reply) ==> s'.entries[i].settled && s'.entries[i].replies == [reply])
            && (s'.entries[i].settled ==> |s'.entries[i].replies| == 1 && Causes(s, step, i, s'.entries[i].replies[0]))
  {
    ReachableInv(steps);
    var s := Exec(steps);
    assert EntryOk(s, i);
    if step.WindowRemoved? {
      CloseRejects(s, step.closed, |s.entries|, i);
    }
  }

  /** Step j settled request i, with this reply. */
  ghost predicate SettledAt(steps: seq<Step>, j: nat, i: nat, reply: Reply) {
    && j < |steps|
    && Causes(Exec(steps[..j]), steps[j], i, reply)
    && !Exec(steps[..j]).entries[i].settled
  }

  /** Only a new request adds an entry, and it is unsettled. */
  lemma {:induction false} NewRequestsAreOpen(steps: seq<Step>, step: Step)
    ensures var s, s' := Exec(steps), Apply(Exec(steps), step);
            && |s'.entries| == |s.entries| + (if step.Enqueue? then 1 else 0)
            && (step.Enqueue? ==> s'.entries[|s.entries|] == Entry(step.account, None, false, false, []))
  {
    ReachableInv(steps);
    if step.WindowRemoved? {
      SettleClosedKeepsInv(Exec(steps), step.closed, |Exec(steps).entries|);
    }
  }

  /** In every run a settled request has one reply, and some earlier step of the run was cause for it. */
  lemma {:induction false} RepliesNameTheirCause(steps: seq<Step>, i: nat)
    requires i < |Exec(steps).entries| && Exec(steps).entries[i].settled
    ensures |Exec(steps).entries[i].replies| == 1
    ensures exists j: nat :: SettledAt(steps, j, i, Exec(steps).entries[i].replies[0])
  {
    var before, step := steps[..|steps| - 1], steps[|steps| - 1];
    var s := Exec(before);
    assert before + [step] == steps;
    if i < |s.entries| && s.entries[i].settled {
      RepliesAreFinal(before, step, i);
      RepliesNameTheirCause(before, i);
      var reply := s.entries[i].replies[0];
      var j: nat :| SettledAt(before, j, i, reply);
      assert before[..j] == steps[..j];
      assert SettledAt(steps, j, i, reply);
    } else if i < |s.entries| {
      StepSettlesExactly(before, step, i);
      assert SettledAt(steps, |before|, i, Exec(steps).entries[i].replies[0]);
    } else {
      NewRequestsAreOpen(before, step);
    }
  }

  // ---- The handlers as they update the pending map ----

  class Desk {
    var s: State

    constructor ()
      ensures s == START && Inv(s)
    {
      s := START;
    }

    method SettleDappRequest(i: nat, reply: Reply)
      requires Inv(s)
      modifies this
      ensures Inv(s) && s == Settle(old(s), i, reply)
    {
      SettleKeepsInv(s, i, reply);
      if i in s.pending {
        var e := s.entries[i];
        s := s.(
          pending := s.pending - {i},
          entries := s.entries[i := e.(settled := true, replies := e.replies + [reply])]);
        if e.hasRelease && i == s.head && s.phase.Waiting? {
          s := s.(head := s.head + 1, phase := Ready);
        }
      }
    }

    /** Closing a window rejects exactly the pending requests that own it. */
    method HandleWindowRemoved(closed: int)
      requires Inv(s)
      modifies this
      ensures Inv(s) && s == Apply(old(s), WindowRemoved(closed))
      ensures |s.entries| == |old(s).entries|
      ensures forall i :: 0 <= i < |s.entries| ==>
                s.entries[i] ==
                  if old(s).entries[i].windowId == Some(closed) && !old(s).entries[i].settled
                  then old(s).entries[i].(settled := true, replies := old(s).entries[i].replies + [UserRejected])
                  else old(s).entries[i]
    {
      for n := 0 to |s.entries|
        invariant Inv(s) && s == SettleClosed(old(s), closed, n)
        invariant |s.entries| == |old(s).entries|
        invariant forall i :: n <= i < |s.entries| ==> s.entries[i] == old(s).entries[i]
        invariant forall i :: 0 <= i < n ==>
                    s.entries[i] ==
                      if old(s).entries[i].windowId == Some(closed) && !old(s).entries[i].settled
                      then old(s).entries[i].(settled := true, replies := old(s).entries[i].replies + [UserRejected])
                      else old(s).entries[i]
      {
        assert EntryOk(s, n);
        if s.entries[n].windowId == Some(closed) && !s.entries[n].settled {
          SettleDappRequest(n, UserRejected);
        }
      }
    }

    /** Undisturbed, an account change settles exactly the pending requests of other accounts. */
    method HandleActiveAccountChanged(current: Option<string>)
      requires Inv(s)
      modifies this
      ensures Inv(s)
      ensures |s.entries| == |old(s).entries|
      ensures forall i :: 0 <= i < |s.entries| ==>
                s.entries[i] ==
                  if (current.None? || old(s).entries[i].account != current) && !old(s).entries[i].settled
                  then old(s).entries[i].(settled := true, replies := old(s).entries[i].replies + [AccountChanged])
                  else old(s).entries[i]
    {
      for n := 0 to |s.entries|
        invariant Inv(s)
        invariant |s.entries| == |old(s).entries|
        invariant forall i :: n <= i < |s.entries| ==> s.entries[i] == old(s).entries[i]
        invariant forall i :: 0 <= i < n ==>
                    s.entries[i] ==
                      if !Matches(old(s).entries[i], current) && !old(s).entries[i].settled
                      then old(s).entries[i].(settled := true, replies := old(s).entries[i].replies + [AccountChanged])
                      else old(s).entries[i]
      {
        assert EntryOk(s, n);
        if !s.entries[n].settled && !Matches(s.entries[n], current) {
          SettleDappRequest(n, AccountChanged);
        }
      }
    }
  }
}
