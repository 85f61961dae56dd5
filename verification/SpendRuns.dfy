/**
 * What a faucet call gets when no other statement comes between its own, from any state that any
 * interleaved run has reached, and which day the rows it meets can belong to.
 */
module SpendRuns {
  import opened Basics
  import opened Windows
  import opened SpendLedger
  import opened SpendStore

  // ---- The window of a row is the day of a call ----

  /** The call has run its first statement, and reads or may read this row. */
  predicate Asked(c: Call, key: string) {
    !c.phase.ReserveRecipient? && (c.recipient == key || key == FAUCET_GLOBAL_SPEND_KEY)
  }

  ghost predicate AskedOn(calls: seq<Call>, key: string, day: int) {
    exists i :: 0 <= i < |calls| && Asked(calls[i], key) && Align(calls[i].now, DAY_MS) == day
  }

  ghost predicate RowsAreDays(s: State) {
    forall key :: key in s.table ==> AskedOn(s.calls, key, s.table[key].windowStart)
  }

  /** Which rows a statement changes, and to which window. */
  lemma {:induction false} StatementWindows(t: Table, c: Call, fault: Fault, key: string)
    requires RowsOk(t) && CallOk(c)
    ensures var (t', c') := Statement(t, c, fault);
            && c'.recipient == c.recipient && c'.now == c.now
            && (Asked(c, key) ==> Asked(c', key))
            && (key in t' ==>
                  || (key in t && t'[key].windowStart == t[key].windowStart)
                  || (t'[key].windowStart == Align(c.now, DAY_MS) && Asked(c', key)))
  {
  }

  lemma {:induction false} ReplaceKeepsAsked(calls: seq<Call>, i: nat, c': Call, key: string, day: int)
    requires i < |calls| && AskedOn(calls, key, day)
    requires c'.recipient == calls[i].recipient && c'.now == calls[i].now && (Asked(calls[i], key) ==> Asked(c', key))
    ensures AskedOn(calls[i := c'], key, day)
  {
    var k :| 0 <= k < |calls| && Asked(calls[k], key) && Align(calls[k].now, DAY_MS) == day;
    assert Asked(calls[i := c'][k], key);
  }

  lemma {:induction false} RunKeepsDays(s: State, i: nat, fault: Fault)
    requires Inv(s) && RowsAreDays(s) && i < |s.calls|
    ensures RowsAreDays(Apply(s, Run(i, fault)))
  {
    var s' := Apply(s, Run(i, fault));
    assert CallOk(s.calls[i]);
    forall key | key in s'.table ensures AskedOn(s'.calls, key, s'.table[key].windowStart) {
      StatementWindows(s.table, s.calls[i], fault, key);
      if key in s.table && s'.table[key].windowStart == s.table[key].windowStart {
        ReplaceKeepsAsked(s.calls, i, s'.calls[i], key, s.table[key].windowStart);
      } else {
        assert Asked(s'.calls[i], key);
      }
    }
  }

  /** In every run each row's window is the day of some call that asked for it. */
  lemma {:induction false} RowWindowsAreDays(steps: seq<Step>)
    ensures RowsAreDays(Exec(steps))
  {
    if steps != [] {
      var s, step := Exec(steps[..|steps| - 1]), steps[|steps| - 1];
      RowWindowsAreDays(steps[..|steps| - 1]);
      ReachableInv(steps[..|steps| - 1]);
      if step.Run? && step.call < |s.calls| {
        RunKeepsDays(s, step.call, step.fault);
      } else {
        var s' := Exec(steps);
        forall key | key in s'.table ensures AskedOn(s'.calls, key, s'.table[key].windowStart) {
          var k :| 0 <= k < |s.calls| && Asked(s.calls[k], key)
            && Align(s.calls[k].now, DAY_MS) == s.table[key].windowStart;
          assert Asked(s'.calls[k], key);
        }
      }
    }
  }

  // ---- One call on its own ----

  /** Call i runs its next k statements, with nothing in between. */
  function RunAlone(s: State, i: nat, k: nat): State
    decreases k
  {
    if k == 0 then s else RunAlone(Apply(s, Run(i, Returns)), i, k - 1)
  }

  /** The call begins and runs its next k statements; it never has more than four. */
  function CallAlone(s: State, to: string, amount: nat, now: nat, k: nat): State {
    RunAlone(Apply(s, Begin(to, amount, now)), |s.calls|, k)
  }

  lemma {:induction false} RunsNext(s: State, i: nat, k: nat)
    requires k > 0
    ensures RunAlone(s, i, k) == RunAlone(Apply(s, Run(i, Returns)), i, k - 1)
  {
  }

  lemma {:induction false} DoneStays(s: State, i: nat, k: nat)
    requires i < |s.calls| && s.calls[i].phase.Done?
    ensures RunAlone(s, i, k) == s
    decreases k
  {
    if k > 0 {
      assert s.calls[i := s.calls[i]] == s.calls;
      DoneStays(s, i, k - 1);
    }
  }

  /** The state is this table, and these calls with c after them. */
  predicate Stands(s: State, t: Table, calls: seq<Call>, c: Call) {
    s == State(t, calls + [c])
  }

  lemma {:induction false} RunLast(s: State, t: Table, calls: seq<Call>, c: Call)
    requires Stands(s, t, calls, c)
    ensures var (t', c') := Statement(t, c, Returns); Stands(Apply(s, Run(|calls|, Returns)), t', calls, c')
  {
  }

  /** The statement of a call that reserves its recipient's row. */
  lemma {:induction false} ReservesRecipient(t: Table, c: Call)
    requires RowsOk(t) && ValidRequest(c.recipient, c.amount, c.now) && c.phase.ReserveRecipient?
    ensures var (t', c') := Statement(t, c, Returns);
            && RowsOk(t') && Charged(t, t', c.recipient, c.amount, c.now)
            && c' == c.(rec := Some(t'[c.recipient].windowStart),
                 phase := if t'[c.recipient].total > MAX_SAFE_INTEGER then Done(Threw)
                          else if t'[c.recipient].total > PER_RECIPIENT_DAILY_CAP then UndoDeniedRecipient
                          else ReserveGlobal)
  {
    UpsertCharges(t, c.recipient, c.amount, c.now);
    UpsertIsValid(t, c.recipient, c.amount, c.now);
  }

  lemma {:induction false} ReservesGlobal(t: Table, c: Call)
    requires RowsOk(t) && ValidRequest(c.recipient, c.amount, c.now) && c.phase.ReserveGlobal?
    ensures var (t', c') := Statement(t, c, Returns);
            var key := FAUCET_GLOBAL_SPEND_KEY;
            && RowsOk(t') && Charged(t, t', key, c.amount, c.now)
            && c' == c.(glo := Some(t'[key].windowStart),
                 phase := if t'[key].total > MAX_SAFE_INTEGER then UndoMalformedGlobal
                          else if t'[key].total > GLOBAL_DAILY_CAP then UndoDeniedGlobal else Done(Granted))
  {
    UpsertCharges(t, FAUCET_GLOBAL_SPEND_KEY, c.amount, c.now);
    UpsertIsValid(t, FAUCET_GLOBAL_SPEND_KEY, c.amount, c.now);
  }

  lemma {:induction false} UndoesRecipient(t: Table, c: Call)
    requires RowsOk(t) && ValidRequest(c.recipient, c.amount, c.now)
    requires c.phase.UndoDeniedRecipient? || c.phase.UndoMalformedGlobal? || c.phase.UndoDeniedGlobal?
    requires c.recipient in t && c.rec == Some(t[c.recipient].windowStart) && t[c.recipient].total >= c.amount
    ensures var (t', c') := Statement(t, c, Returns);
            && RowsOk(t') && Refunded(t, t', c.recipient, c.amount, c.now)
            && c' == c.(rec := None,
                 phase := if c.phase.UndoDeniedRecipient? then Done(DeniedByRecipient(FaucetDayRetryAfter(c.now)))
                          else if c.phase.UndoMalformedGlobal? then Done(Threw) else UndoGlobalRow)
  {
    CompensateRefunds(t, c.recipient, c.amount, c.now);
  }

  lemma {:induction false} UndoesGlobal(t: Table, c: Call)
    requires RowsOk(t) && ValidRequest(c.recipient, c.amount, c.now) && c.phase.UndoGlobalRow?
    requires FAUCET_GLOBAL_SPEND_KEY in t && c.glo == Some(t[FAUCET_GLOBAL_SPEND_KEY].windowStart)
    requires t[FAUCET_GLOBAL_SPEND_KEY].total >= c.amount
    ensures var (t', c') := Statement(t, c, Returns);
            && Refunded(t, t', FAUCET_GLOBAL_SPEND_KEY, c.amount, c.now)
            && c'.phase == Done(DeniedByGlobal(FaucetDayRetryAfter(c.now)))
  {
    CompensateRefunds(t, FAUCET_GLOBAL_SPEND_KEY, c.amount, c.now);
  }

  /** The last call is over with this outcome, as a reservation on its own over the table before it. */
  ghost predicate Ends(s: State, before: Table, calls: seq<Call>, c: Call, out: Outcome) {
    && |s.calls| == |calls| + 1 && s.calls[..|calls|] == calls && s.calls[|calls|].phase == Done(out)
    && Reserved(before, s.table, c.recipient, c.amount, c.now, out)
  }

  lemma {:induction false} EndsHere(s: State, before: Table, t: Table, calls: seq<Call>, c: Call, out: Outcome, k: nat)
    requires Stands(s, t, calls, c) && c.phase == Done(out)
    requires Reserved(before, t, c.recipient, c.amount, c.now, out)
    ensures Ends(RunAlone(s, |calls|, k), before, calls, c, out)
  {
    DoneStays(s, |calls|, k);
  }

  /** The last statement of a call that the global cap refuses. */
  lemma {:induction false} LastUndoAlone(
      s: State, before: Table, t1: Table, t2: Table, t3: Table, calls: seq<Call>, c: Call, k: nat)
    requires Stands(s, t3, calls, c) && c.phase.UndoGlobalRow? && ValidRequest(c.recipient, c.amount, c.now)
    requires RowsOk(before) && RowsOk(t3) && ChargedBoth(before, t1, t2, c.recipient, c.amount, c.now)
    requires Refunded(t2, t3, c.recipient, c.amount, c.now)
    requires c.glo == Some(t2[FAUCET_GLOBAL_SPEND_KEY].windowStart) && t2[FAUCET_GLOBAL_SPEND_KEY].total >= c.amount
    requires GLOBAL_DAILY_CAP < t2[FAUCET_GLOBAL_SPEND_KEY].total <= MAX_SAFE_INTEGER && k >= 1
    ensures Ends(RunAlone(s, |calls|, k), before, calls, c, DeniedByGlobal(FaucetDayRetryAfter(c.now)))
  {
    UndoesGlobal(t3, c);
    RunLast(s, t3, calls, c);
    RunsNext(s, |calls|, k);
    var (t4, c4) := Statement(t3, c, Returns);
    GlobalDenied(before, t1, t2, t3, t4, c.recipient, c.amount, c.now);
    EndsHere(Apply(s, Run(|calls|, Returns)), before, t4, calls, c4, DeniedByGlobal(FaucetDayRetryAfter(c.now)), k - 1);
  }

  /** From a refused global reserve on: two more statements at most. */
  lemma {:induction false} RefusedAlone(
      s: State, before: Table, t1: Table, t2: Table, calls: seq<Call>, c: Call, k: nat)
    requires Stands(s, t2, calls, c) && ValidRequest(c.recipient, c.amount, c.now)
    requires RowsOk(before) && RowsOk(t2) && ChargedBoth(before, t1, t2, c.recipient, c.amount, c.now)
    requires c.rec == Some(t2[c.recipient].windowStart) && t2[c.recipient].total >= c.amount
    requires c.glo == Some(t2[FAUCET_GLOBAL_SPEND_KEY].windowStart) && t2[FAUCET_GLOBAL_SPEND_KEY].total >= c.amount
    requires if c.phase.UndoMalformedGlobal? then t2[FAUCET_GLOBAL_SPEND_KEY].total > MAX_SAFE_INTEGER
             else c.phase.UndoDeniedGlobal? && GLOBAL_DAILY_CAP < t2[FAUCET_GLOBAL_SPEND_KEY].total <= MAX_SAFE_INTEGER
    requires k >= 2
    ensures exists out :: Ends(RunAlone(s, |calls|, k), before, calls, c, out)
  {
    var n := |calls|;
    UndoesRecipient(t2, c);
    RunLast(s, t2, calls, c);
    RunsNext(s, n, k);
    var (t3, c3) := Statement(t2, c, Returns);
    var s3 := Apply(s, Run(n, Returns));
    if c.phase.UndoMalformedGlobal? {
      GlobalThrew(before, t1, t2, t3, c.recipient, c.amount, c.now);
      EndsHere(s3, before, t3, calls, c3, Threw, k - 1);
      assert Ends(RunAlone(s, n, k), before, calls, c, Threw);
    } else {
      LastUndoAlone(s3, before, t1, t2, t3, calls, c3, k - 1);
      assert Ends(RunAlone(s, n, k), before, calls, c, DeniedByGlobal(FaucetDayRetryAfter(c.now)));
    }
  }

  lemma {:induction false} CarriedAtLeast(before: Table, after: Table, key: string, amount: nat, now: nat)
    requires RowsOk(before) && Charged(before, after, key, amount, now)
    ensures after[key].total >= amount
  {
    assert key in before ==> RowOk(before[key], key);
  }

  /** From the global reserve on: three more statements at most. */
  lemma {:induction false} GlobalAlone(s: State, before: Table, t1: Table, calls: seq<Call>, c: Call, k: nat)
    requires Stands(s, t1, calls, c) && c.phase.ReserveGlobal? && ValidRequest(c.recipient, c.amount, c.now)
    requires RowsOk(before) && RowsOk(t1) && Charged(before, t1, c.recipient, c.amount, c.now)
    requires t1[c.recipient].total <= PER_RECIPIENT_DAILY_CAP && c.rec == Some(t1[c.recipient].windowStart)
    requires k >= 3
    ensures exists out :: Ends(RunAlone(s, |calls|, k), before, calls, c, out)
  {
    var n := |calls|;
    ReservesGlobal(t1, c);
    RunLast(s, t1, calls, c);
    var (t2, c2) := Statement(t1, c, Returns);
    var s2 := Apply(s, Run(n, Returns));
    RunsNext(s, n, k);
    if c2.phase.Done? {
      BothGranted(before, t1, t2, c.recipient, c.amount, c.now);
      EndsHere(s2, before, t2, calls, c2, Granted, k - 1);
      assert Ends(RunAlone(s, n, k), before, calls, c, Granted);
    } else {
      CarriedAtLeast(before, t1, c.recipient, c.amount, c.now);
      CarriedAtLeast(t1, t2, FAUCET_GLOBAL_SPEND_KEY, c.amount, c.now);
      RefusedAlone(s2, before, t1, t2, calls, c2, k - 1);
      var out :| Ends(RunAlone(s2, n, k - 1), before, calls, c2, out);
      assert Ends(RunAlone(s, n, k), before, calls, c, out);
    }
  }

  /** From the recipient's reserve on: four statements at most. */
  lemma {:induction false} BegunAlone(s: State, t: Table, calls: seq<Call>, c: Call, k: nat)
    requires Stands(s, t, calls, c) && c.phase.ReserveRecipient? && ValidRequest(c.recipient, c.amount, c.now)
    requires RowsOk(t) && k >= 4
    ensures exists out :: Ends(RunAlone(s, |calls|, k), t, calls, c, out)
  {
    var n := |calls|;
    ReservesRecipient(t, c);
    RunLast(s, t, calls, c);
    RunsNext(s, n, k);
    var (t1, c1) := Statement(t, c, Returns);
    var s1 := Apply(s, Run(n, Returns));
    if c1.phase.Done? {
      RecipientThrew(t, t1, c.recipient, c.amount, c.now);
      EndsHere(s1, t, t1, calls, c1, Threw, k - 1);
      assert Ends(RunAlone(s, n, k), t, calls, c, Threw);
    } else if c1.phase.UndoDeniedRecipient? {
      CarriedAtLeast(t, t1, c.recipient, c.amount, c.now);
      UndoesRecipient(t1, c1);
      RunLast(s1, t1, calls, c1);
      RunsNext(s1, n, k - 1);
      var (t2, c2) := Statement(t1, c1, Returns);
      var out := DeniedByRecipient(FaucetDayRetryAfter(c.now));
      RecipientDenied(t, t1, t2, c.recipient, c.amount, c.now);
      EndsHere(Apply(s1, Run(n, Returns)), t, t2, calls, c2, out, k - 2);
      assert Ends(RunAlone(s, n, k), t, calls, c, out);
    } else {
      GlobalAlone(s1, t, t1, calls, c1, k - 1);
      var out :| Ends(RunAlone(s1, n, k - 1), t, calls, c1, out);
      assert Ends(RunAlone(s, n, k), t, calls, c, out);
    }
  }

  /**
   * From any state a run has reached: a call that nothing disturbs gets exactly the answer its amount
   * calls for, is carried by both rows when granted, and leaves what they carry when denied.
   */
  lemma {:induction false} CallAloneIsAnswered(s: State, to: string, amount: nat, now: nat, k: nat)
    requires RowsOk(s.table) && ValidRequest(to, amount, now) && k >= 4
    ensures var s' := CallAlone(s, to, amount, now, k);
            var out := AnswerAlone(s.table, to, amount, now);
            && |s'.calls| == |s.calls| + 1 && s'.calls[..|s.calls|] == s.calls
            && s'.calls[|s.calls|].phase == Done(out)
            && Reserved(s.table, s'.table, to, amount, now, out)
  {
    var c := Call(to, amount, now, ReserveRecipient, None, None);
    BegunAlone(Apply(s, Begin(to, amount, now)), s.table, s.calls, c, k);
  }

  /** Every call so far is of an earlier day. */
  predicate AllBefore(calls: seq<Call>, day: int) {
    forall i :: 0 <= i < |calls| ==> Align(calls[i].now, DAY_MS) < day
  }

  lemma {:induction false} NothingUsedYet(s: State, day: int)
    requires RowsAreDays(s) && AllBefore(s.calls, day)
    ensures forall key :: Used(s.table, key, day) == 0
  {
    forall key | key in s.table ensures s.table[key].windowStart < day {
      assert AskedOn(s.calls, key, s.table[key].windowStart);
    }
  }

  /**
   * A new day: after any run, a call of a day later than that of every call so far starts from zero,
   * so on its own it is granted exactly when its amount fits under the recipient's cap.
   */
  lemma {:induction false} NewDayStartsFromZero(steps: seq<Step>, to: string, amount: nat, now: nat, k: nat)
    requires ValidRequest(to, amount, now) && k >= 4
    requires AllBefore(Exec(steps).calls, Align(now, DAY_MS))
    ensures var s := Exec(steps);
            && (forall key :: Used(s.table, key, Align(now, DAY_MS)) == 0)
            && |CallAlone(s, to, amount, now, k).calls| == |s.calls| + 1
            && (CallAlone(s, to, amount, now, k).calls[|s.calls|].phase == Done(Granted)
                <==> amount <= PER_RECIPIENT_DAILY_CAP)
  {
    var s := Exec(steps);
    ReachableInv(steps);
    RowWindowsAreDays(steps);
    NothingUsedYet(s, Align(now, DAY_MS));
    CallAloneIsAnswered(s, to, amount, now, k);
  }
}
