/**
 * The relay's replay guard. Calls of feeBumpAndSubmit on one isolate interleave at their awaits;
 * between awaits a call runs to completion, so reading and claiming a hash is one step. RPC
 * replies, clock readings and the order of steps are arbitrary.
 */
module RelayGuard {
  import opened Basics

  const SEEN_MAX: nat := 5000
  const SEEN_TTL_MS: int := 30 * 60_000

  /** { hash, status }: what a call returns and what a 'done' entry caches. */
  datatype Out = Out(hash: Option<string>, status: string)

  /** pending is what is known of a submission whose outcome is not. */
  datatype Entry = InFlight(pending: Option<Out>, at: int) | Finished(out: Out, at: int)
  type Seen = map<string, Entry>

  // ---- One call ----

  datatype Phase =
    | Simulating
    | Sending
    | Polling(rpcHash: string, triesLeft: nat)
    | Returned(out: Out, duplicate: bool)
    | Unknown(result: Option<Out>, httpStatus: nat)
    | Failed

  /** What became of the call's sendTransaction. */
  datatype Broadcast = NotSent | Issued | RejectedByRpc

  /** observed is the status with which polling ended; lastWrite is when the call last wrote its entry. */
  datatype Call = Call(
    innerHash: string, tries: nat, phase: Phase, broadcast: Broadcast, observed: Option<string>, lastWrite: int)

  predicate Active(c: Call) {
    c.phase.Simulating? || c.phase.Sending? || c.phase.Polling?
  }

  datatype SendReply = SendThrows | SendError | Accepted(hash: string)
  datatype PollReply = PollThrows | PollStatus(status: string)

  datatype Step =
    | Enter(innerHash: string, now: int, tries: nat, canSimulate: bool)
    | SimulateReturns(call: nat, accepted: bool)
    | SendReturns(call: nat, sent: SendReply, now: int)
    | PollReturns(call: nat, polled: PollReply, now: int)
    | PollEnds(call: nat, now: int)

  /** evicted counts, per hash, how often pruneSeen dropped its entry. */
  datatype State = State(seen: Seen, calls: seq<Call>, evicted: multiset<string>)

  const START: State := State(map[], [], multiset{})

  function Expired(seen: Seen, now: int): set<string> {
    set h | h in seen && now - seen[h].at > SEEN_TTL_MS
  }

  /** The hashes dropped by a call entering at time now. */
  function Dropped(seen: Seen, now: int): set<string> {
    if |seen| > SEEN_MAX then Expired(seen, now) else {}
  }

  /** The replay short-circuit and the claim, then the synchronous part up to the simulation. */
  function EnterCall(seen: Seen, innerHash: string, now: int, tries: nat, canSimulate: bool): (Seen, Call) {
    if innerHash in seen then
      var prev := seen[innerHash];
      (seen, Call(innerHash, tries,
        if prev.Finished? then Returned(prev.out, true) else Unknown(prev.pending, 409),
        NotSent, None, now))
    else if canSimulate then
      (seen[innerHash := InFlight(None, now)], Call(innerHash, tries, Simulating, NotSent, None, now))
    else
      (seen, Call(innerHash, tries, Failed, NotSent, None, now))
  }

  /** Keep the entry in flight and throw RelaySubmissionUnknownError. */
  function GiveUp(seen: Seen, c: Call, result: Option<Out>, now: int): (Seen, Call) {
    (seen[c.innerHash := InFlight(result, now)], c.(phase := Unknown(result, 502), lastWrite := now))
  }

  /** Delete the entry and rethrow: nothing was submitted. */
  function Fail(seen: Seen, c: Call): (Seen, Call) {
    (seen - {c.innerHash}, c.(phase := Failed))
  }

  function Finish(seen: Seen, c: Call, status: string, now: int): (Seen, Call)
    requires c.phase.Polling?
  {
    var out := Out(Some(c.phase.rpcHash), status);
    (seen[c.innerHash := Finished(out, now)], c.(phase := Returned(out, false), lastWrite := now))
  }

  function AfterSimulate(seen: Seen, c: Call, accepted: bool): (Seen, Call) {
    if !accepted then Fail(seen, c) else (seen, c.(phase := Sending, broadcast := Issued))
  }

  function AfterSend(seen: Seen, c: Call, sent: SendReply, now: int): (Seen, Call) {
    match sent
    case SendThrows => GiveUp(seen, c, None, now)
    case SendError => Fail(seen, c.(broadcast := RejectedByRpc))
    case Accepted(hash) =>
      if hash == "" then GiveUp(seen, c, Some(Out(None, "PENDING")), now)
      else
        ( seen[c.innerHash := InFlight(Some(Out(Some(hash), "PENDING")), now)],
          c.(phase := Polling(hash, c.tries), lastWrite := now) )
  }

  /** One reply of getTransaction, while tries are left. */
  function AfterPoll(seen: Seen, c: Call, polled: PollReply, now: int): (Seen, Call)
    requires c.phase.Polling? && c.phase.triesLeft > 0
  {
    match polled
    case PollThrows => GiveUp(seen, c, Some(Out(Some(c.phase.rpcHash), "PENDING")), now)
    case PollStatus(status) =>
      if status != "" && status != "NOT_FOUND" then Finish(seen, c.(observed := Some(status)), status, now)
      else (seen, c.(phase := Polling(c.phase.rpcHash, c.phase.triesLeft - 1)))
  }

  /** One await of call c returns and the call runs up to its next await. */
  function Advance(seen: Seen, c: Call, step: Step): (Seen, Call) {
    match step
    case SimulateReturns(_, accepted) => if c.phase.Simulating? then AfterSimulate(seen, c, accepted) else (seen, c)
    case SendReturns(_, sent, now) => if c.phase.Sending? then AfterSend(seen, c, sent, now) else (seen, c)
    case PollReturns(_, polled, now) =>
      if c.phase.Polling? && c.phase.triesLeft > 0 then AfterPoll(seen, c, polled, now) else (seen, c)
    case PollEnds(_, now) =>
      if c.phase.Polling? && c.phase.triesLeft == 0 then Finish(seen, c, "PENDING", now) else (seen, c)
    case Enter(_, _, _, _) => (seen, c)
  }

  function Apply(s: State, step: Step): State {
    if step.Enter? then
      var dropped := Dropped(s.seen, step.now);
      var (seen, c) := EnterCall(s.seen - dropped, step.innerHash, step.now, step.tries, step.canSimulate);
      State(seen, s.calls + [c], s.evicted + multiset(dropped))
    else if step.call < |s.calls| then
      var (seen, c) := Advance(s.seen, s.calls[step.call], step);
      s.(seen := seen, calls := s.calls[step.call := c])
    else s
  }

  function Exec(steps: seq<Step>): State {
    if steps == [] then START else Apply(Exec(steps[..|steps| - 1]), steps[|steps| - 1])
  }

  // ---- How often a hash is broadcast ----

  /** Calls that still may submit, or have submitted without a proved rejection. */
  function ClaimOn(h: string): Call -> nat {
    (c: Call) => if c.innerHash == h && (Active(c) || c.broadcast.Issued?) then 1 else 0
  }

  /** Calls whose sendTransaction was issued and not answered with status ERROR. */
  function BroadcastOf(h: string): Call -> nat {
    (c: Call) => if c.innerHash == h && c.broadcast.Issued? then 1 else 0
  }

  predicate ClaimsBounded(s: State, h: string) {
    && Sum(s.calls, ClaimOn(h)) <= s.evicted[h] + (if h in s.seen then 1 else 0)
    && forall i :: 0 <= i < |s.calls| && s.calls[i].phase.Simulating? ==> s.calls[i].broadcast.NotSent?
  }

  /** What a resumed call may do: it touches its own hash only, and nothing once it is over. */
  predicate Local(seen: Seen, c: Call, seen': Seen, c': Call) {
    && c'.innerHash == c.innerHash
    && seen' - {c.innerHash} == seen - {c.innerHash}
    && (!Active(c) ==> c' == c && seen' == seen)
  }

  /** Giving up a claim is what lets an entry go; a claim never comes from resuming. */
  predicate ClaimsShrink(seen: Seen, c: Call, seen': Seen, c': Call, h: string) {
    ClaimOn(h)(c') + (if h in seen then 1 else 0) <= ClaimOn(h)(c) + (if h in seen' then 1 else 0)
  }

  lemma {:induction false} AdvanceIsLocal(seen: Seen, c: Call, step: Step)
    requires !step.Enter?
    ensures var (seen', c') := Advance(seen, c, step); Local(seen, c, seen', c')
  {
  }

  lemma {:induction false} AdvanceShrinksClaims(seen: Seen, c: Call, step: Step, h: string)
    requires !step.Enter? && (c.phase.Simulating? ==> c.broadcast.NotSent?)
    ensures var (seen', c') := Advance(seen, c, step); ClaimsShrink(seen, c, seen', c', h)
  {
  }

  lemma {:induction false} ReplaceKeepsClaims(s: State, i: nat, seen': Seen, c': Call, h: string)
    requires ClaimsBounded(s, h) && i < |s.calls|
    requires ClaimsShrink(s.seen, s.calls[i], seen', c', h) && !c'.phase.Simulating?
    ensures ClaimsBounded(s.(seen := seen', calls := s.calls[i := c']), h)
  {
    SumUpdate(s.calls, i, c', ClaimOn(h));
  }

  lemma {:induction false} EnterKeepsClaims(s: State, step: Step, h: string)
    requires ClaimsBounded(s, h) && step.Enter?
    ensures ClaimsBounded(Apply(s, step), h)
  {
    SumAppend(s.calls, Apply(s, step).calls[|s.calls|], ClaimOn(h));
  }

  lemma {:induction false} ApplyKeepsClaims(s: State, step: Step, h: string)
    requires ClaimsBounded(s, h)
    ensures ClaimsBounded(Apply(s, step), h)
  {
    if step.Enter? {
      EnterKeepsClaims(s, step, h);
    } else if step.call < |s.calls| && Apply(s, step) != s {
      var c := s.calls[step.call];
      var (seen', c') := Advance(s.seen, c, step);
      AdvanceShrinksClaims(s.seen, c, step, h);
      ReplaceKeepsClaims(s, step.call, seen', c', h);
    }
  }

  lemma {:induction false} ClaimsAreBounded(steps: seq<Step>, h: string)
    ensures ClaimsBounded(Exec(steps), h)
  {
    if steps != [] {
      ClaimsAreBounded(steps[..|steps| - 1], h);
      ApplyKeepsClaims(Exec(steps[..|steps| - 1]), steps[|steps| - 1], h);
    }
  }

  /**
   * In every run, whatever the timing, the sends of one hash that were not answered with ERROR
   * number at most one more than the evictions of its entry.
   */
  lemma {:induction false} BroadcastsBoundedByEvictions(steps: seq<Step>, h: string)
    ensures Sum(Exec(steps).calls, BroadcastOf(h)) <= Exec(steps).evicted[h] + 1
  {
    ClaimsAreBounded(steps, h);
    SumMonotone(Exec(steps).calls, BroadcastOf(h), ClaimOn(h));
  }

  // ---- Exactly when a hash reopens ----

  /** The guard of the prune: a call entering now would drop the entry of this hash. */
  predicate WouldExpire(seen: Seen, h: string, now: int) {
    |seen| > 5000 && h in seen && now - seen[h].at > 1_800_000
  }

  /** Nobody has entered so late that the prune on overflow dropped the entry of this hash. */
  predicate NeverExpired(steps: seq<Step>, h: string) {
    steps == [] ||
    (var before, step := steps[..|steps| - 1], steps[|steps| - 1];
     && NeverExpired(before, h)
     && !(step.Enter? && WouldExpire(Exec(before).seen, h, step.now)))
  }

  /** Evictions of a hash are counted exactly by the readings that met the prune's guard. */
  lemma {:induction false} EvictedIffExpired(steps: seq<Step>, h: string)
    ensures Exec(steps).evicted[h] == 0 <==> NeverExpired(steps, h)
  {
    if steps != [] {
      var before, step := steps[..|steps| - 1], steps[|steps| - 1];
      EvictedIffExpired(before, h);
      var s := Exec(before);
      if step.Enter? {
        assert h in Dropped(s.seen, step.now) <==> WouldExpire(s.seen, h, step.now);
      }
    }
  }

  /** At most once: without an expired entry of the hash, its sends not answered with ERROR number at most one. */
  lemma {:induction false} AtMostOneBroadcast(steps: seq<Step>, h: string)
    requires NeverExpired(steps, h)
    ensures Sum(Exec(steps).calls, BroadcastOf(h)) <= 1
  {
    EvictedIffExpired(steps, h);
    BroadcastsBoundedByEvictions(steps, h);
  }

  lemma {:induction false} ClaimIsRemembered(steps: seq<Step>, h: string, k: nat)
    requires NeverExpired(steps, h) && k < |Exec(steps).calls|
    requires Exec(steps).calls[k].innerHash == h && Exec(steps).calls[k].broadcast.Issued?
    ensures h in Exec(steps).seen
  {
    EvictedIffExpired(steps, h);
    ClaimsAreBounded(steps, h);
    SumAtLeast(Exec(steps).calls, k, ClaimOn(h));
  }

  /**
   * The exact condition: after a send that was not answered with ERROR, a retry is let through to
   * submit if and only if it meets the prune's guard. So a retry within the time to live of the
   * entry's last write never submits again.
   */
  lemma {:induction false} ReopensExactlyWhenExpired(steps: seq<Step>, h: string, k: nat, now: int, tries: nat)
    requires NeverExpired(steps, h) && k < |Exec(steps).calls|
    requires Exec(steps).calls[k].innerHash == h && Exec(steps).calls[k].broadcast.Issued?
    ensures var s := Exec(steps);
            var retry := Apply(s, Enter(h, now, tries, true)).calls[|s.calls|];
            && h in s.seen
            && (Active(retry) <==> WouldExpire(s.seen, h, now))
            && (now - s.seen[h].at <= 1_800_000 ==> retry.phase.Returned? || retry.phase.Unknown?)
  {
    ClaimIsRemembered(steps, h, k);
  }

  lemma {:induction false} ExecTwoMore(steps: seq<Step>, a: Step, b: Step)
    ensures Exec(steps + [a, b]) == Apply(Apply(Exec(steps), a), b)
  {
    assert (steps + [a, b])[..|steps| + 1] == steps + [a];
    assert (steps + [a])[..|steps|] == steps;
  }

  /** And then, once its simulation succeeds, the hash is broadcast twice: exactly under the same guard. */
  lemma {:induction false} SecondBroadcastExactlyWhenExpired(steps: seq<Step>, h: string, k: nat, now: int, tries: nat)
    requires NeverExpired(steps, h) && k < |Exec(steps).calls|
    requires Exec(steps).calls[k].innerHash == h && Exec(steps).calls[k].broadcast.Issued?
    ensures var s := Exec(steps);
            var again := steps + [Enter(h, now, tries, true), SimulateReturns(|s.calls|, true)];
            Sum(Exec(again).calls, BroadcastOf(h)) == if WouldExpire(s.seen, h, now) then 2 else 1
  {
    var s := Exec(steps);
    var enter := Enter(h, now, tries, true);
    var simulated := SimulateReturns(|s.calls|, true);
    ReopensExactlyWhenExpired(steps, h, k, now, tries);
    AtMostOneBroadcast(steps, h);
    SumAtLeast(s.calls, k, BroadcastOf(h));
    ExecTwoMore(steps, enter, simulated);
    var entered := Apply(s, enter);
    var c := entered.calls[|s.calls|];
    SumAppend(s.calls, c, BroadcastOf(h));
    SumUpdate(entered.calls, |s.calls|, Apply(entered, simulated).calls[|s.calls|], BroadcastOf(h));
  }

  /**
   * While the entry of a hash has never expired, a call that is about to be allowed to submit finds
   * that every other call on that hash either never sent or was answered with ERROR.
   */
  lemma {:induction false} ResubmitsOnlyAfterRejection(steps: seq<Step>, i: nat, k: nat)
    requires i < |Exec(steps).calls| && k < |Exec(steps).calls| && i != k
    requires Active(Exec(steps).calls[i])
    requires Exec(steps).calls[k].innerHash == Exec(steps).calls[i].innerHash
    requires NeverExpired(steps, Exec(steps).calls[i].innerHash)
    ensures !Active(Exec(steps).calls[k]) && !Exec(steps).calls[k].broadcast.Issued?
  {
    var s := Exec(steps);
    var h := s.calls[i].innerHash;
    EvictedIffExpired(steps, h);
    ClaimsAreBounded(steps, h);
    if i < k {
      TwoTermsInSum(s.calls, ClaimOn(h), i, k);
    } else {
      TwoTermsInSum(s.calls, ClaimOn(h), k, i);
    }
  }

  // ---- Ownership, as long as calls keep within the time to live ----

  /** Every call still active when somebody prunes wrote its entry within the time to live. */
  predicate TimelyStep(s: State, step: Step) {
    step.Enter? && |s.seen| > SEEN_MAX ==>
      forall i :: 0 <= i < |s.calls| && Active(s.calls[i]) ==> step.now - s.calls[i].lastWrite <= SEEN_TTL_MS
  }

  predicate TimelyRun(steps: seq<Step>) {
    steps == [] || (TimelyRun(steps[..|steps| - 1]) && TimelyStep(Exec(steps[..|steps| - 1]), steps[|steps| - 1]))
  }

  /** The call's hash has an in-flight entry, and the call is its last writer. */
  predicate OwnsEntry(seen: Seen, c: Call) {
    c.innerHash in seen && seen[c.innerHash].InFlight? && seen[c.innerHash].at == c.lastWrite
  }

  ghost predicate Owned(s: State) {
    && (forall i :: 0 <= i < |s.calls| && Active(s.calls[i]) ==> OwnsEntry(s.seen, s.calls[i]))
    && (forall i, j :: 0 <= i < j < |s.calls| && Active(s.calls[i]) && Active(s.calls[j])
          ==> s.calls[i].innerHash != s.calls[j].innerHash)
  }

  lemma {:induction false} AdvanceKeepsEntry(seen: Seen, c: Call, step: Step)
    requires !step.Enter? && (Active(c) ==> OwnsEntry(seen, c))
    ensures var (seen', c') := Advance(seen, c, step); Active(c') ==> Active(c) && OwnsEntry(seen', c')
  {
  }

  lemma {:induction false} ReplaceKeepsOwned(s: State, i: nat, seen': Seen, c': Call)
    requires Owned(s) && i < |s.calls|
    requires Local(s.seen, s.calls[i], seen', c')
    requires Active(c') ==> Active(s.calls[i]) && OwnsEntry(seen', c')
    ensures Owned(s.(seen := seen', calls := s.calls[i := c']))
  {
    var s' := s.(seen := seen', calls := s.calls[i := c']);
    forall k | 0 <= k < |s'.calls| && Active(s'.calls[k]) ensures OwnsEntry(s'.seen, s'.calls[k]) {
      if k != i {
        var h := s.calls[k].innerHash;
        assert OwnsEntry(s.seen, s.calls[k]);
        if h == c'.innerHash {
          assert seen' == s.seen;
        } else {
          assert h in s.seen - {c'.innerHash};
          assert (s.seen - {c'.innerHash})[h] == s.seen[h];
        }
      }
    }
  }

  lemma {:induction false} EnterKeepsOwned(s: State, step: Step)
    requires Owned(s) && step.Enter? && TimelyStep(s, step)
    ensures Owned(Apply(s, step))
  {
    var s' := Apply(s, step);
    forall k | 0 <= k < |s'.calls| && Active(s'.calls[k]) ensures OwnsEntry(s'.seen, s'.calls[k]) {
      if k < |s.calls| {
        assert OwnsEntry(s.seen, s.calls[k]);
      }
    }
  }

  lemma {:induction false} TimelyRunsAreOwned(steps: seq<Step>)
    requires TimelyRun(steps)
    ensures Owned(Exec(steps))
  {
    if steps != [] {
      var s, step := Exec(steps[..|steps| - 1]), steps[|steps| - 1];
      TimelyRunsAreOwned(steps[..|steps| - 1]);
      if step.Enter? {
        EnterKeepsOwned(s, step);
      } else if step.call < |s.calls| {
        var c := s.calls[step.call];
        var (seen', c') := Advance(s.seen, c, step);
        AdvanceIsLocal(s.seen, c, step);
        assert Active(c) ==> OwnsEntry(s.seen, c);
        AdvanceKeepsEntry(s.seen, c, step);
        ReplaceKeepsOwned(s, step.call, seen', c');
      }
    }
  }

  /**
   * In a timely run at most one call is active on a hash and its entry is in flight; so when a step
   * of call i makes an entry disappear, i is the one active call on that hash.
   */
  lemma {:induction false} OnlyTheOwnerDeletes(steps: seq<Step>, step: Step, h: string)
    requires TimelyRun(steps) && !step.Enter?
    requires h in Exec(steps).seen && h !in Apply(Exec(steps), step).seen
    ensures var s := Exec(steps);
            && step.call < |s.calls| && s.calls[step.call].innerHash == h && Active(s.calls[step.call])
            && forall k :: 0 <= k < |s.calls| && k != step.call && s.calls[k].innerHash == h ==> !Active(s.calls[k])
  {
    TimelyRunsAreOwned(steps);
    var s := Exec(steps);
    if step.call < |s.calls| {
      var c := s.calls[step.call];
      var (seen', c') := Advance(s.seen, c, step);
      AdvanceIsLocal(s.seen, c, step);
      assert h in s.seen - {c.innerHash} <==> h != c.innerHash;
      assert h !in seen' - {c.innerHash};
    }
  }

  // ---- The bound is tight: a finished entry past its time to live reopens its hash ----

  lemma {:induction false} AppendStep(steps: seq<Step>, step: Step)
    requires TimelyRun(steps) && TimelyStep(Exec(steps), step)
    ensures TimelyRun(steps + [step]) && Exec(steps + [step]) == Apply(Exec(steps), step)
  {
    assert (steps + [step])[..|steps|] == steps;
  }

  const LATER: int := SEEN_TTL_MS + 1

  /** One call for "h" that succeeds at time 0. */
  const ONE_SUCCESS: seq<Step> :=
    [ Enter("h", 0, 1, true), SimulateReturns(0, true),
      SendReturns(0, Accepted("a"), 0), PollReturns(0, PollStatus("SUCCESS"), 0) ]

  lemma {:induction false} OneSuccessRun()
    ensures TimelyRun(ONE_SUCCESS)
    ensures var s := Exec(ONE_SUCCESS);
            && s.seen == map["h" := Finished(Out(Some("a"), "SUCCESS"), 0)]
            && s.calls == [Call("h", 1, Returned(Out(Some("a"), "SUCCESS"), false), Issued, Some("SUCCESS"), 0)]
            && s.evicted == multiset{}
  {
    AppendStep([], ONE_SUCCESS[0]);
    AppendStep([ONE_SUCCESS[0]], ONE_SUCCESS[1]);
    AppendStep([ONE_SUCCESS[0]] + [ONE_SUCCESS[1]], ONE_SUCCESS[2]);
    AppendStep([ONE_SUCCESS[0]] + [ONE_SUCCESS[1]] + [ONE_SUCCESS[2]], ONE_SUCCESS[3]);
    assert ONE_SUCCESS == [ONE_SUCCESS[0]] + [ONE_SUCCESS[1]] + [ONE_SUCCESS[2]] + [ONE_SUCCESS[3]];
    assert Exec([ONE_SUCCESS[0]]) == State(
      map["h" := InFlight(None, 0)], [Call("h", 1, Simulating, NotSent, None, 0)], multiset{});
  }

  /** The finished entry of "h", untouched, beside n younger ones. */
  ghost predicate Flooded(s: State, n: nat) {
    && |s.seen| == n + 1
    && "h" in s.seen && s.seen["h"].at == 0
    && (forall k :: k in s.seen && k != "h" ==> s.seen[k].at == LATER && |k| <= n)
    && |s.calls| == n + 1
    && s.calls[0] == Call("h", 1, Returned(Out(Some("a"), "SUCCESS"), false), Issued, Some("SUCCESS"), 0)
    && (forall i :: 1 <= i <= n ==> s.calls[i].lastWrite == LATER)
    && s.evicted == multiset{}
  }

  lemma {:induction false} FloodStep(s: State, n: nat)
    requires n < SEEN_MAX && Flooded(s, n)
    ensures Flooded(Apply(s, Enter(Name(n + 1), LATER, 1, true)), n + 1)
    ensures TimelyStep(s, Enter(Name(n + 1), LATER, 1, true))
  {
    var name := Name(n + 1);
    assert |name| == n + 1 && name[0] == 'x' != "h"[0];
    assert name !in s.seen;
    assert Dropped(s.seen, LATER) == {};
    assert s.seen - {} == s.seen;
    assert s.evicted + multiset({}) == s.evicted;
  }

  ghost predicate FloodsTo(steps: seq<Step>, n: nat) {
    TimelyRun(steps) && Flooded(Exec(steps), n)
  }

  lemma {:induction false} FloodBase()
    ensures FloodsTo(ONE_SUCCESS, 0)
  {
    OneSuccessRun();
  }

  lemma {:induction false} FloodExtends(steps: seq<Step>, n: nat)
    requires n < SEEN_MAX && FloodsTo(steps, n)
    ensures FloodsTo(steps + [Enter(Name(n + 1), LATER, 1, true)], n + 1)
  {
    FloodStep(Exec(steps), n);
    AppendStep(steps, Enter(Name(n + 1), LATER, 1, true));
  }

  lemma {:induction false} FloodRun(n: nat) returns (steps: seq<Step>)
    requires n <= SEEN_MAX
    ensures FloodsTo(steps, n)
  {
    if n == 0 {
      FloodBase();
      steps := ONE_SUCCESS;
    } else {
      var fewer := FloodRun(n - 1);
      FloodExtends(fewer, n - 1);
      steps := fewer + [Enter(Name(n), LATER, 1, true)];
    }
  }

  lemma {:induction false} OverflowDrops(s: State)
    requires Flooded(s, SEEN_MAX)
    ensures var s' := Apply(s, Enter("h", LATER, 1, true));
            && s'.calls == s.calls + [Call("h", 1, Simulating, NotSent, None, LATER)]
            && s'.evicted == multiset{"h"}
    ensures TimelyStep(s, Enter("h", LATER, 1, true))
  {
    assert Expired(s.seen, LATER) == {"h"};
  }

  /** "h" was broadcast and reported SUCCESS, its entry was evicted, and a new call is active on it. */
  ghost predicate Reopened(steps: seq<Step>) {
    var s := Exec(steps);
    && TimelyRun(steps)
    && |s.calls| == SEEN_MAX + 2
    && s.calls[0] == Call("h", 1, Returned(Out(Some("a"), "SUCCESS"), false), Issued, Some("SUCCESS"), 0)
    && s.calls[SEEN_MAX + 1] == Call("h", 1, Simulating, NotSent, None, LATER)
    && s.evicted == multiset{"h"}
  }

  lemma {:induction false} ReopenedBy(steps: seq<Step>)
    requires FloodsTo(steps, SEEN_MAX)
    ensures Reopened(steps + [Enter("h", LATER, 1, true)])
  {
    OverflowDrops(Exec(steps));
    AppendStep(steps, Enter("h", LATER, 1, true));
  }

  ghost predicate BroadcastTwice(steps: seq<Step>) {
    var s := Exec(steps);
    && TimelyRun(steps)
    && s.evicted == multiset{"h"}
    && s.calls != [] && s.calls[0].innerHash == "h" && s.calls[0].phase == Returned(Out(Some("a"), "SUCCESS"), false)
    && Sum(s.calls, BroadcastOf("h")) == 2
  }

  lemma {:induction false} ReopenedBroadcastsAgain(steps: seq<Step>)
    requires Reopened(steps)
    ensures BroadcastTwice(steps + [SimulateReturns(SEEN_MAX + 1, true)])
  {
    AppendStep(steps, SimulateReturns(SEEN_MAX + 1, true));
    var again := steps + [SimulateReturns(SEEN_MAX + 1, true)];
    TwoTermsInSum(Exec(again).calls, BroadcastOf("h"), 0, SEEN_MAX + 1);
    BroadcastsBoundedByEvictions(again, "h");
  }

  /**
   * Keeping active entries safe is not enough for at-most-once: some timely run evicts one finished
   * entry and broadcasts again a hash that was already reported SUCCESS.
   */
  lemma {:induction false} FinishedEntryCanExpire()
    ensures exists steps: seq<Step> :: BroadcastTwice(steps)
  {
    var steps := FloodRun(SEEN_MAX);
    ReopenedBy(steps);
    ReopenedBroadcastsAgain(steps + [Enter("h", LATER, 1, true)]);
  }

  // ---- Agreement of answers ----

  /** Call c finished its hash itself, with this outcome. */
  predicate FinishedWith(c: Call, h: string, out: Out) {
    c.innerHash == h && c.phase == Returned(out, false)
  }

  /** A call's own outcome is what its polling showed, or PENDING once its tries ran out. */
  predicate OutcomeIsObserved(c: Call) {
    && (c.phase.Returned? && !c.phase.duplicate ==>
          && c.broadcast.Issued?
          && c.phase.out.hash.Some?
          && (if c.observed.Some? then c.phase.out.status == c.observed.value else c.phase.out.status == "PENDING"))
    && (c.phase.Polling? || c.phase.Sending? ==> c.broadcast.Issued? && c.observed.None?)
    && (c.phase.Simulating? ==> c.observed.None?)
  }

  /** Some call finished this hash itself, with this outcome. */
  ghost predicate SomeoneFinished(calls: seq<Call>, h: string, out: Out) {
    exists k :: 0 <= k < |calls| && FinishedWith(calls[k], h, out)
  }

  ghost predicate Consistent(s: State) {
    && (forall i :: 0 <= i < |s.calls| ==> OutcomeIsObserved(s.calls[i]))
    && (forall h :: h in s.seen && s.seen[h].Finished? ==> SomeoneFinished(s.calls, h, s.seen[h].out))
    && (forall i :: 0 <= i < |s.calls| && s.calls[i].phase.Returned? ==>
          SomeoneFinished(s.calls, s.calls[i].innerHash, s.calls[i].phase.out))
  }

  lemma {:induction false} AdvanceObserves(seen: Seen, c: Call, step: Step)
    requires !step.Enter? && OutcomeIsObserved(c)
    ensures var (seen', c') := Advance(seen, c, step);
            && OutcomeIsObserved(c')
            && (c'.phase.Returned? && c' != c ==> !c'.phase.duplicate)
            && (c.innerHash in seen' && seen'[c.innerHash].Finished? && seen' != seen
                ==> FinishedWith(c', c.innerHash, seen'[c.innerHash].out))
  {
  }

  lemma {:induction false} WitnessesSurvive(calls: seq<Call>, i: nat, c': Call, h: string, out: Out)
    requires SomeoneFinished(calls, h, out) && i < |calls| && (!Active(calls[i]) ==> c' == calls[i])
    ensures SomeoneFinished(calls[i := c'], h, out)
  {
    var k :| 0 <= k < |calls| && FinishedWith(calls[k], h, out);
    assert FinishedWith(calls[i := c'][k], h, out);
  }

  lemma {:induction false} ReplaceKeepsConsistent(s: State, i: nat, seen': Seen, c': Call)
    requires Consistent(s) && i < |s.calls|
    requires Local(s.seen, s.calls[i], seen', c') && OutcomeIsObserved(c')
    requires c'.phase.Returned? && c' != s.calls[i] ==> !c'.phase.duplicate
    requires c'.innerHash in seen' && seen'[c'.innerHash].Finished? && seen' != s.seen
             ==> FinishedWith(c', c'.innerHash, seen'[c'.innerHash].out)
    ensures Consistent(s.(seen := seen', calls := s.calls[i := c']))
  {
    var calls' := s.calls[i := c'];
    forall h | h in seen' && seen'[h].Finished? ensures SomeoneFinished(calls', h, seen'[h].out) {
      if h == c'.innerHash && seen' != s.seen {
        assert FinishedWith(calls'[i], h, seen'[h].out);
      } else {
        if h != c'.innerHash {
          assert h in seen' - {c'.innerHash};
          assert (s.seen - {c'.innerHash})[h] == s.seen[h] == seen'[h];
        }
        WitnessesSurvive(s.calls, i, c', h, seen'[h].out);
      }
    }
    forall k | 0 <= k < |calls'| && calls'[k].phase.Returned?
      ensures SomeoneFinished(calls', calls'[k].innerHash, calls'[k].phase.out)
    {
      if calls'[k] == s.calls[k] {
        WitnessesSurvive(s.calls, i, c', calls'[k].innerHash, calls'[k].phase.out);
      } else {
        assert FinishedWith(calls'[i], c'.innerHash, c'.phase.out);
      }
    }
  }

  lemma {:induction false} EnterKeepsConsistent(s: State, step: Step)
    requires Consistent(s) && step.Enter?
    ensures Consistent(Apply(s, step))
  {
    var s' := Apply(s, step);
    var c := s'.calls[|s.calls|];
    forall h, out | SomeoneFinished(s.calls, h, out) ensures SomeoneFinished(s'.calls, h, out) {
      var k :| 0 <= k < |s.calls| && FinishedWith(s.calls[k], h, out);
      assert FinishedWith(s'.calls[k], h, out);
    }
  }

  lemma {:induction false} RunsAreConsistent(steps: seq<Step>)
    ensures Consistent(Exec(steps))
  {
    if steps != [] {
      var s, step := Exec(steps[..|steps| - 1]), steps[|steps| - 1];
      RunsAreConsistent(steps[..|steps| - 1]);
      if step.Enter? {
        EnterKeepsConsistent(s, step);
      } else if step.call < |s.calls| {
        var c := s.calls[step.call];
        var (seen', c') := Advance(s.seen, c, step);
        AdvanceIsLocal(s.seen, c, step);
        assert OutcomeIsObserved(c);
        AdvanceObserves(s.seen, c, step);
        ReplaceKeepsConsistent(s, step.call, seen', c');
      }
    }
  }

  /** While its entry never expired, at most one call has a send of a hash outstanding or accepted. */
  lemma {:induction false} OneFinisher(steps: seq<Step>, h: string, i: nat, j: nat)
    requires i < |Exec(steps).calls| && j < |Exec(steps).calls|
    requires Exec(steps).calls[i].innerHash == Exec(steps).calls[j].innerHash == h
    requires Exec(steps).calls[i].broadcast.Issued? && Exec(steps).calls[j].broadcast.Issued?
    requires NeverExpired(steps, h)
    ensures i == j
  {
    EvictedIffExpired(steps, h);
    ClaimsAreBounded(steps, h);
    if i != j {
      TwoTermsInSum(Exec(steps).calls, ClaimOn(h), if i < j then i else j, if i < j then j else i);
    }
  }

  /**
   * While its entry never expired, the answers returned for a hash all carry the outcome of one and the same
   * call k: the call that broadcast it and finished it.
   */
  lemma {:induction false} AnswersAgree(steps: seq<Step>, h: string)
    requires NeverExpired(steps, h)
    ensures var calls := Exec(steps).calls;
            (exists i :: 0 <= i < |calls| && calls[i].innerHash == h && calls[i].phase.Returned?) ==>
            exists k :: 0 <= k < |calls| && calls[k].innerHash == h && calls[k].phase.Returned?
              && !calls[k].phase.duplicate && calls[k].broadcast.Issued?
              && forall i :: 0 <= i < |calls| && calls[i].innerHash == h && calls[i].phase.Returned?
                   ==> calls[i].phase.out == calls[k].phase.out && (i != k ==> calls[i].phase.duplicate)
  {
    RunsAreConsistent(steps);
    var calls := Exec(steps).calls;
    if i0 :| 0 <= i0 < |calls| && calls[i0].innerHash == h && calls[i0].phase.Returned? {
      assert SomeoneFinished(calls, h, calls[i0].phase.out);
      var k :| 0 <= k < |calls| && FinishedWith(calls[k], h, calls[i0].phase.out);
      assert OutcomeIsObserved(calls[k]);
      forall i | 0 <= i < |calls| && calls[i].innerHash == h && calls[i].phase.Returned?
        ensures calls[i].phase.out == calls[k].phase.out && (i != k ==> calls[i].phase.duplicate)
      {
        assert SomeoneFinished(calls, h, calls[i].phase.out);
        var l :| 0 <= l < |calls| && FinishedWith(calls[l], h, calls[i].phase.out);
        assert OutcomeIsObserved(calls[l]) && OutcomeIsObserved(calls[i]);
        OneFinisher(steps, h, k, l);
        if !calls[i].phase.duplicate {
          OneFinisher(steps, h, k, i);
        }
      }
    }
  }

  // ---- The HTTP answer ----

  predicate IsCanonicalRelayHash(h: string) {
    |h| == 64 && forall i :: 0 <= i < |h| ==> LowerHex(h[i])
  }

  const RELAY_RESULT_STATUSES: set<string> := {"SUCCESS", "FAILED", "PENDING", "NOT_FOUND", "ERROR"}

  /** The allowlisted evidence in a response body; unknown marks { submission: 'unknown' }. */
  datatype Body = Body(hash: Option<string>, status: Option<string>, duplicate: bool, unknown: bool)
  datatype Response = Response(code: nat, body: Body)

  function SafeRelayResult(result: Option<Out>, duplicate: bool, unknown: bool): Body {
    match result
    case None => Body(None, None, false, unknown)
    case Some(out) =>
      Body(
        if out.hash.Some? && IsCanonicalRelayHash(out.hash.value) then out.hash else None,
        if out.status in RELAY_RESULT_STATUSES then Some(out.status) else None,
        duplicate,
        unknown
      )
  }

  function RelayResultHttpResponse(out: Out, duplicate: bool): Response {
    if out.hash.Some? && IsCanonicalRelayHash(out.hash.value) && (out.status == "SUCCESS" || out.status == "FAILED")
    then Response(200, SafeRelayResult(Some(out), duplicate, false))
    else Response(502, SafeRelayResult(Some(out), duplicate, true))
  }

  /** What the handler answers once a call is over. */
  function Answer(c: Call): Response
    requires !Active(c)
  {
    match c.phase
    case Returned(out, duplicate) => RelayResultHttpResponse(out, duplicate)
    case Unknown(result, httpStatus) =>
      Response(if httpStatus == 409 then 409 else 502, SafeRelayResult(result, false, true))
    case Failed => Response(502, Body(None, None, false, false))
  }

  /** Call c broadcast this inner transaction and its own polling ended in this status. */
  predicate PolledTo(c: Call, h: string, status: Option<string>) {
    c.innerHash == h && c.broadcast.Issued? && c.observed.Some? && c.observed == status
  }

  /**
   * In every run an answer 200 is backed by a call on the same inner transaction that was broadcast
   * and whose own polling, of the very hash the answer shows, ended in the SUCCESS or FAILED it shows.
   */
  lemma {:induction false} TerminalAnswersAreProved(steps: seq<Step>, i: nat)
    requires i < |Exec(steps).calls| && !Active(Exec(steps).calls[i])
    requires Answer(Exec(steps).calls[i]).code == 200
    ensures var s := Exec(steps);
            var body := Answer(s.calls[i]).body;
            && body.hash.Some? && IsCanonicalRelayHash(body.hash.value)
            && (body.status == Some("SUCCESS") || body.status == Some("FAILED"))
            && (exists k :: 0 <= k < |s.calls| && PolledTo(s.calls[k], s.calls[i].innerHash, body.status)
                  && s.calls[k].phase == Returned(Out(body.hash, body.status.value), false))
  {
    RunsAreConsistent(steps);
    var s := Exec(steps);
    var c := s.calls[i];
    assert SomeoneFinished(s.calls, c.innerHash, c.phase.out);
    var k :| 0 <= k < |s.calls| && FinishedWith(s.calls[k], c.innerHash, c.phase.out);
    assert OutcomeIsObserved(s.calls[k]);
    assert PolledTo(s.calls[k], c.innerHash, Some(c.phase.out.status));
  }

  // ---- The guard as it updates its map, and the polling loop ----

  class ReplayGuard {
    var seen: Seen

    constructor ()
      ensures seen == map[]
    {
      seen := map[];
    }

    method PruneSeen(now: int)
      modifies this
      ensures seen == old(seen) - Expired(old(seen), now)
    {
      var todo := seen.Keys;
      while todo != {}
        invariant todo <= seen.Keys <= old(seen).Keys
        invariant forall h :: h in seen ==> seen[h] == old(seen)[h]
        invariant forall h :: h in seen && h !in todo ==> now - seen[h].at <= SEEN_TTL_MS
        invariant forall h :: h in old(seen) && h !in seen ==> now - old(seen)[h].at > SEEN_TTL_MS
        decreases todo
      {
        var h :| h in todo;
        todo := todo - {h};
        if now - seen[h].at > SEEN_TTL_MS {
          seen := seen - {h};
        }
      }
    }

    /** The section of feeBumpAndSubmit with no await in it: prune, short-circuit, claim. */
    method Claim(innerHash: string, now: int, tries: nat, canSimulate: bool) returns (c: Call)
      modifies this
      ensures (seen, c) == EnterCall(old(seen) - Dropped(old(seen), now), innerHash, now, tries, canSimulate)
    {
      if |seen| > SEEN_MAX {
        PruneSeen(now);
      } else {
        assert seen - {} == seen;
      }
      if innerHash in seen {
        var prev := seen[innerHash];
        if prev.Finished? {
          return Call(innerHash, tries, Returned(prev.out, true), NotSent, None, now);
        }
        return Call(innerHash, tries, Unknown(prev.pending, 409), NotSent, None, now);
      }
      ghost var before := seen;
      seen := seen[innerHash := InFlight(None, now)];
      if !canSimulate {
        seen := seen - {innerHash};
        assert seen == before;
        return Call(innerHash, tries, Failed, NotSent, None, now);
      }
      return Call(innerHash, tries, Simulating, NotSent, None, now);
    }
  }

  /** No status yet: getTransaction still answers NOT_FOUND. */
  predicate StillMissing(reply: PollReply) {
    reply.PollStatus? && (reply.status == "" || reply.status == "NOT_FOUND")
  }

  /** Reply i is the first that is not missing. */
  predicate FirstDecisive(replies: seq<PollReply>, i: nat) {
    i < |replies| && !StillMissing(replies[i]) && forall j :: 0 <= j < i ==> StillMissing(replies[j])
  }

  /**
   * pollResult against the replies the RPC would give. The result is the first decisive reply
   * within the tries (None when that reply is a throw), or PENDING when there is none.
   */
  method PollResult(replies: seq<PollReply>, tries: nat) returns (status: Option<string>)
    requires |replies| >= tries
    ensures (forall i :: 0 <= i < tries ==> StillMissing(replies[i])) ==> status == Some("PENDING")
    ensures forall i :: 0 <= i < tries && FirstDecisive(replies, i)
              ==> status == if replies[i].PollThrows? then None else Some(replies[i].status)
  {
    for n := 0 to tries
      invariant forall j :: 0 <= j < n ==> StillMissing(replies[j])
    {
      var r := replies[n];
      if r.PollThrows? {
        return None;
      }
      if r.status != "" && r.status != "NOT_FOUND" {
        return Some(r.status);
      }
    }
    return Some("PENDING");
  }
}
