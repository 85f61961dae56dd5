/**
 * What one relayed call comes to, told from the replies it has heard: for every run, whatever other
 * calls do in between. And what a retry of the same inner transaction is told meanwhile.
 */
module RelayStory {
  import opened Basics
  import opened RelayGuard

  /** The replies a call has heard so far; ended once its tries are used up. */
  datatype Replies = Replies(sim: Option<bool>, sent: Option<SendReply>, polls: seq<PollReply>, ended: bool)

  const NOTHING: Replies := Replies(None, None, [], false)

  /** A reply adds to what the call has heard when the call awaits it. */
  function Hears(c: Call, h: Replies, step: Step): Replies {
    match step
    case SimulateReturns(_, accepted) => if c.phase.Simulating? then h.(sim := Some(accepted)) else h
    case SendReturns(_, sent, _) => if c.phase.Sending? then h.(sent := Some(sent)) else h
    case PollReturns(_, polled, _) =>
      if c.phase.Polling? && |h.polls| < c.tries then h.(polls := h.polls + [polled]) else h
    case PollEnds(_, _) => if c.phase.Polling? && |h.polls| == c.tries then h.(ended := true) else h
    case Enter(_, _, _, _) => h
  }

  function Heard(steps: seq<Step>, i: nat): Replies {
    if steps == [] then NOTHING
    else
      var before, step := steps[..|steps| - 1], steps[|steps| - 1];
      if !step.Enter? && step.call == i && i < |Exec(before).calls|
      then Hears(Exec(before).calls[i], Heard(before, i), step)
      else Heard(before, i)
  }

  // ---- The story ----

  /** Answered on entry: a duplicate, or no simulation to be had. */
  predicate AnsweredOnEntry(c: Call) {
    && c.broadcast.NotSent?
    && match c.phase
       case Returned(_, duplicate) => duplicate
       case Unknown(_, httpStatus) => httpStatus == 409
       case Failed => true
       case _ => false
  }

  /** An accepted send with this hash, and the replies to polling it. */
  predicate PollStory(c: Call, hash: string, polls: seq<PollReply>, ended: bool) {
    var last := |polls| - 1;
    && c.broadcast.Issued? && |polls| <= c.tries
    && (forall k :: 0 <= k < last ==> StillMissing(polls[k]))
    && if polls != [] && polls[last].PollThrows? then
         c.phase == Unknown(Some(Out(Some(hash), "PENDING")), 502) && !ended
       else if polls != [] && !StillMissing(polls[last]) then
         c.phase == Returned(Out(Some(hash), polls[last].status), false) && !ended
       else if ended then
         |polls| == c.tries && c.phase == Returned(Out(Some(hash), "PENDING"), false)
       else
         c.phase == Polling(hash, c.tries - |polls|)
  }

  predicate Story(c: Call, h: Replies) {
    if h.sim.None? then
      h == NOTHING && ((c.phase.Simulating? && c.broadcast.NotSent?) || AnsweredOnEntry(c))
    else if !h.sim.value then
      h == NOTHING.(sim := h.sim) && c.phase == Failed && c.broadcast.NotSent?
    else
      match h.sent
      case None => h == NOTHING.(sim := h.sim) && c.phase == Sending && c.broadcast.Issued?
      case Some(SendThrows) =>
        h.polls == [] && !h.ended && c.phase == Unknown(None, 502) && c.broadcast.Issued?
      case Some(SendError) => h.polls == [] && !h.ended && c.phase == Failed && c.broadcast.RejectedByRpc?
      case Some(Accepted(hash)) =>
        if hash == "" then
          h.polls == [] && !h.ended && c.phase == Unknown(Some(Out(None, "PENDING")), 502) && c.broadcast.Issued?
        else
          PollStory(c, hash, h.polls, h.ended)
  }

  lemma {:induction false} EnterBegins(seen: Seen, innerHash: string, now: int, tries: nat, canSimulate: bool)
    ensures Story(EnterCall(seen, innerHash, now, tries, canSimulate).1, NOTHING)
  {
  }

  lemma {:induction false} PollGoesOn(seen: Seen, c: Call, h: Replies, step: Step)
    requires Story(c, h) && c.phase.Polling? && !step.Enter?
    ensures Story(Advance(seen, c, step).1, Hears(c, h, step))
  {
  }

  lemma {:induction false} StoryGoesOn(seen: Seen, c: Call, h: Replies, step: Step)
    requires Story(c, h) && !step.Enter?
    ensures Story(Advance(seen, c, step).1, Hears(c, h, step))
  {
    if c.phase.Polling? {
      PollGoesOn(seen, c, h, step);
    }
  }

  lemma {:induction false} NotYetHeard(steps: seq<Step>, i: nat)
    requires i >= |Exec(steps).calls|
    ensures Heard(steps, i) == NOTHING
  {
    if steps != [] {
      NotYetHeard(steps[..|steps| - 1], i);
    }
  }

  /** In every run each call stands where the replies it has heard have brought it, and nowhere else. */
  lemma {:induction false} CallsFollowTheirReplies(steps: seq<Step>, i: nat)
    requires i < |Exec(steps).calls|
    ensures Story(Exec(steps).calls[i], Heard(steps, i))
  {
    var before, step := steps[..|steps| - 1], steps[|steps| - 1];
    var s := Exec(before);
    if i < |s.calls| {
      CallsFollowTheirReplies(before, i);
      if !step.Enter? && step.call == i {
        StoryGoesOn(s.seen, s.calls[i], Heard(before, i), step);
      }
    } else {
      NotYetHeard(before, i);
      EnterBegins(s.seen - Dropped(s.seen, step.now), step.innerHash, step.now, step.tries, step.canSimulate);
    }
  }

  /** The send of this call was accepted with this hash. */
  predicate AcceptedAs(h: Replies, hash: string) {
    h.sim == Some(true) && h.sent == Some(Accepted(hash)) && hash != ""
  }

  /** A decisive reply is the first and the last that an accepted call hears. */
  lemma {:induction false} DecisiveIsLast(c: Call, h: Replies, hash: string, k: nat)
    requires Story(c, h) && AcceptedAs(h, hash) && k < |h.polls| && !StillMissing(h.polls[k])
    ensures FirstDecisive(h.polls, k) && k == |h.polls| - 1 && !h.ended
    ensures h.polls[k].PollStatus? ==> c.phase == Returned(Out(Some(hash), h.polls[k].status), false)
    ensures h.polls[k].PollThrows? ==> c.phase == Unknown(Some(Out(Some(hash), "PENDING")), 502)
  {
  }

  lemma {:induction false} StillPolling(c: Call, h: Replies, hash: string)
    requires Story(c, h) && AcceptedAs(h, hash) && forall k :: 0 <= k < |h.polls| ==> StillMissing(h.polls[k])
    ensures if h.ended then |h.polls| == c.tries && c.phase == Returned(Out(Some(hash), "PENDING"), false)
            else c.phase == Polling(hash, c.tries - |h.polls|)
  {
  }

  /** An accepted call still polls exactly while every reply is missing and its tries are not used up. */
  lemma {:induction false} PollsExactly(steps: seq<Step>, i: nat, hash: string)
    requires i < |Exec(steps).calls| && AcceptedAs(Heard(steps, i), hash)
    ensures var c, h := Exec(steps).calls[i], Heard(steps, i);
            && (c.phase.Polling? <==> !h.ended && forall k :: 0 <= k < |h.polls| ==> StillMissing(h.polls[k]))
            && (h.ended ==> |h.polls| == c.tries && forall k :: 0 <= k < |h.polls| ==> StillMissing(h.polls[k]))
            && (forall k :: 0 <= k < |h.polls| && !StillMissing(h.polls[k])
                  ==> FirstDecisive(h.polls, k) && k == |h.polls| - 1)
  {
    CallsFollowTheirReplies(steps, i);
    var c, h := Exec(steps).calls[i], Heard(steps, i);
    forall k | 0 <= k < |h.polls| && !StillMissing(h.polls[k])
      ensures FirstDecisive(h.polls, k) && k == |h.polls| - 1 && !h.ended && !c.phase.Polling?
    {
      DecisiveIsLast(c, h, hash, k);
    }
    if forall k :: 0 <= k < |h.polls| ==> StillMissing(h.polls[k]) {
      StillPolling(c, h, hash);
    }
  }

  // ---- The HTTP answer ----

  predicate CanonicalHash(hash: string) {
    |hash| == 64 && forall i :: 0 <= i < |hash| ==> '0' <= hash[i] <= '9' || 'a' <= hash[i] <= 'f'
  }

  function Shown(hash: string): Option<string> {
    if CanonicalHash(hash) then Some(hash) else None
  }

  lemma {:induction false} CanonicalAgrees(hash: string)
    ensures CanonicalHash(hash) <==> IsCanonicalRelayHash(hash)
  {
  }

  lemma {:induction false} OutcomeIsShown(c: Call, hash: string, status: string)
    requires c.phase == Returned(Out(Some(hash), status), false)
    ensures Answer(c).body.hash == Shown(hash)
    ensures Answer(c).body.status ==
              if status in {"SUCCESS", "FAILED", "PENDING", "NOT_FOUND", "ERROR"} then Some(status) else None
    ensures Answer(c).code ==
              if CanonicalHash(hash) && (status == "SUCCESS" || status == "FAILED") then 200 else 502
    ensures Answer(c).body.unknown <==> Answer(c).code == 502
  {
    CanonicalAgrees(hash);
  }

  /** A terminal status of a canonical hash is answered 200, and shown as it is. */
  lemma {:induction false} DecisiveIsAnswered(steps: seq<Step>, i: nat, hash: string, k: nat)
    requires i < |Exec(steps).calls| && AcceptedAs(Heard(steps, i), hash)
    requires var polls := Heard(steps, i).polls; k < |polls| && polls[k].PollStatus? && !StillMissing(polls[k])
    ensures var c, status := Exec(steps).calls[i], Heard(steps, i).polls[k].status;
            && !Active(c)
            && Answer(c).body.hash == Shown(hash)
            && Answer(c).body.status ==
                 (if status in {"SUCCESS", "FAILED", "PENDING", "NOT_FOUND", "ERROR"} then Some(status) else None)
            && Answer(c).code ==
                 (if CanonicalHash(hash) && (status == "SUCCESS" || status == "FAILED") then 200 else 502)
            && (Answer(c).body.unknown <==> Answer(c).code == 502)
  {
    CallsFollowTheirReplies(steps, i);
    DecisiveIsLast(Exec(steps).calls[i], Heard(steps, i), hash, k);
    OutcomeIsShown(Exec(steps).calls[i], hash, Heard(steps, i).polls[k].status);
  }

  /** Everything else a claiming call comes to: a proved failure, or an unknown outcome with what is known of it. */
  lemma {:induction false} OthersAreAnswered(steps: seq<Step>, i: nat)
    requires i < |Exec(steps).calls| && !Active(Exec(steps).calls[i])
    ensures var a, h := Answer(Exec(steps).calls[i]), Heard(steps, i);
            && (h.sim == Some(false) || h.sent == Some(SendError) ==>
                  a == Response(502, Body(None, None, false, false)))
            && (h.sent == Some(SendThrows) ==> a == Response(502, Body(None, None, false, true)))
            && (h.sent == Some(Accepted("")) ==> a == Response(502, Body(None, Some("PENDING"), false, true)))
            && (forall hash ::
                  AcceptedAs(h, hash) && (h.ended || (h.polls != [] && h.polls[|h.polls| - 1].PollThrows?)) ==>
                    a == Response(502, Body(Shown(hash), Some("PENDING"), false, true)))
  {
    CallsFollowTheirReplies(steps, i);
  }

  // ---- What the guard remembers of a hash ----

  /** The entry says what is known of this call. */
  predicate Tells(e: Entry, c: Call) {
    match c.phase
    case Simulating => e.InFlight? && e.pending == None
    case Sending => e.InFlight? && e.pending == None
    case Polling(hash, _) => e.InFlight? && e.pending == Some(Out(Some(hash), "PENDING"))
    case Unknown(result, httpStatus) => e.InFlight? && httpStatus == 502 && e.pending == result
    case Returned(out, duplicate) => e.Finished? && !duplicate && e.out == out
    case Failed => false
  }

  ghost predicate ToldBy(calls: seq<Call>, h: string, e: Entry) {
    exists k :: 0 <= k < |calls| && calls[k].innerHash == h && Tells(e, calls[k])
  }

  ghost predicate EntriesTell(s: State) {
    forall h :: h in s.seen ==> ToldBy(s.calls, h, s.seen[h])
  }

  /** A resumed call rewrites or drops the entry of its hash, or the entry still tells what is known of it. */
  lemma {:induction false} AdvanceTells(seen: Seen, c: Call, step: Step)
    requires !step.Enter?
    ensures var (seen', c') := Advance(seen, c, step);
            && (seen' != seen ==> c.innerHash in seen' ==> Tells(seen'[c.innerHash], c'))
            && (seen' == seen && c.innerHash in seen && Tells(seen[c.innerHash], c) ==> Tells(seen[c.innerHash], c'))
  {
  }

  lemma {:induction false} ReplaceTells(s: State, i: nat, seen': Seen, c': Call)
    requires EntriesTell(s) && i < |s.calls| && Local(s.seen, s.calls[i], seen', c')
    requires seen' != s.seen ==> c'.innerHash in seen' ==> Tells(seen'[c'.innerHash], c')
    requires seen' == s.seen && c'.innerHash in s.seen && Tells(s.seen[c'.innerHash], s.calls[i])
             ==> Tells(s.seen[c'.innerHash], c')
    ensures EntriesTell(s.(seen := seen', calls := s.calls[i := c']))
  {
    var calls' := s.calls[i := c'];
    forall h | h in seen' ensures ToldBy(calls', h, seen'[h]) {
      if h == c'.innerHash && seen' != s.seen {
        assert calls'[i].innerHash == h;
      } else {
        if h != c'.innerHash {
          assert h in seen' - {c'.innerHash};
          assert (s.seen - {c'.innerHash})[h] == seen'[h];
        }
        var k :| 0 <= k < |s.calls| && s.calls[k].innerHash == h && Tells(s.seen[h], s.calls[k]);
        assert calls'[k].innerHash == h && Tells(seen'[h], calls'[k]);
      }
    }
  }

  lemma {:induction false} EnterTells(s: State, step: Step)
    requires EntriesTell(s) && step.Enter?
    ensures EntriesTell(Apply(s, step))
  {
    var s' := Apply(s, step);
    forall h | h in s'.seen ensures ToldBy(s'.calls, h, s'.seen[h]) {
      if h in s.seen && s'.seen[h] == s.seen[h] {
        var k :| 0 <= k < |s.calls| && s.calls[k].innerHash == h && Tells(s.seen[h], s.calls[k]);
        assert s'.calls[k].innerHash == h && Tells(s'.seen[h], s'.calls[k]);
      } else {
        assert s'.calls[|s.calls|].innerHash == h && Tells(s'.seen[h], s'.calls[|s.calls|]);
      }
    }
  }

  /** In every run each entry tells what is known of some call on its hash. */
  lemma {:induction false} EntriesTellTheirCalls(steps: seq<Step>)
    ensures EntriesTell(Exec(steps))
  {
    if steps != [] {
      var s, step := Exec(steps[..|steps| - 1]), steps[|steps| - 1];
      EntriesTellTheirCalls(steps[..|steps| - 1]);
      if step.Enter? {
        EnterTells(s, step);
      } else if step.call < |s.calls| {
        var (seen', c') := Advance(s.seen, s.calls[step.call], step);
        AdvanceIsLocal(s.seen, s.calls[step.call], step);
        AdvanceTells(s.seen, s.calls[step.call], step);
        ReplaceTells(s, step.call, seen', c');
      }
    }
  }

  /** The call may still submit, or has submitted without a proved rejection. */
  predicate Claims(c: Call, h: string) {
    c.innerHash == h && (Active(c) || c.broadcast.Issued?)
  }

  /** What a retry of the claimed inner transaction is told. */
  function RetryOf(c: Call): Phase {
    match c.phase
    case Returned(out, _) => Returned(out, true)
    case Unknown(result, _) => Unknown(result, 409)
    case Polling(hash, _) => Unknown(Some(Out(Some(hash), "PENDING")), 409)
    case _ => Unknown(None, 409)
  }

  /** While the entry of a hash never expired: it is there exactly while some call claims the hash, and tells of it. */
  lemma {:induction false} RememberedExactly(steps: seq<Step>, h: string)
    requires NeverExpired(steps, h)
    ensures var s := Exec(steps);
            && (h in s.seen <==> exists k :: 0 <= k < |s.calls| && Claims(s.calls[k], h))
            && (h in s.seen ==>
                  forall k :: 0 <= k < |s.calls| && Claims(s.calls[k], h) ==> Tells(s.seen[h], s.calls[k]))
  {
    var s := Exec(steps);
    EvictedIffExpired(steps, h);
    ClaimsAreBounded(steps, h);
    EntriesTellTheirCalls(steps);
    forall k | 0 <= k < |s.calls| && Claims(s.calls[k], h) ensures h in s.seen {
      SumAtLeast(s.calls, k, ClaimOn(h));
    }
    if h in s.seen {
      var j :| 0 <= j < |s.calls| && s.calls[j].innerHash == h && Tells(s.seen[h], s.calls[j]);
      CallsFollowTheirReplies(steps, j);
      assert Claims(s.calls[j], h);
      forall k | 0 <= k < |s.calls| && Claims(s.calls[k], h) ensures k == j {
        if k != j {
          TwoTermsInSum(s.calls, ClaimOn(h), Min(j, k), Max(j, k));
        }
      }
    }
  }

  /**
   * A retry, while the entry has not expired, is told exactly what is known of the call that claims
   * the inner transaction; and it is let through when no call does, as after every proved failure.
   */
  lemma {:induction false} RetryIsTold(steps: seq<Step>, h: string, now: int, tries: nat)
    requires NeverExpired(steps, h) && !WouldExpire(Exec(steps).seen, h, now)
    ensures var s := Exec(steps);
            var retry := Apply(s, Enter(h, now, tries, true)).calls[|s.calls|];
            && (forall k :: 0 <= k < |s.calls| && Claims(s.calls[k], h) ==> retry.phase == RetryOf(s.calls[k]))
            && (retry.phase.Simulating? <==> forall k :: 0 <= k < |s.calls| ==> !Claims(s.calls[k], h))
  {
    RememberedExactly(steps, h);
  }

  /**
   * Such a retry is answered 409 while the outcome is open, with the hash when it is known and
   * canonical; and like the call itself, marked as a duplicate, once that call has an outcome.
   */
  lemma {:induction false} RetryIsAnswered(c: Call, retry: Call)
    requires retry.phase == RetryOf(c)
    ensures c.phase.Simulating? || c.phase.Sending? ==> Answer(retry) == Response(409, Body(None, None, false, true))
    ensures c.phase.Polling? ==>
              Answer(retry) == Response(409, Body(Shown(c.phase.rpcHash), Some("PENDING"), false, true))
    ensures c.phase.Unknown? ==> Answer(retry).code == 409 && Answer(retry).body == Answer(c).body
    ensures c.phase.Returned? ==>
              Answer(retry).code == Answer(c).code && Answer(retry).body == Answer(c).body.(duplicate := true)
  {
  }

  /** The clock reading of a step; a simulation reply writes no entry and needs none. */
  function TimeOf(step: Step): int {
    if step.SimulateReturns? then 0 else step.now
  }

  /** Whatever a step writes for a hash is stamped with the time of that step. */
  lemma {:induction false} WritesAreStamped(s: State, step: Step, h: string)
    requires h in Apply(s, step).seen && (h !in s.seen || Apply(s, step).seen[h] != s.seen[h])
    ensures Apply(s, step).seen[h].at == TimeOf(step) && !step.SimulateReturns?
  {
  }
}
