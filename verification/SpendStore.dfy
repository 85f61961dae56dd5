/** The faucet's two reservation routines, run by one caller at a time over state they update in place. */
module SpendStore {
  import opened Basics
  import opened Windows
  import opened SpendLedger

  /** What the row of a key already carries for a request whose day starts at day. */
  function Used(rows: Table, key: string, day: int): int {
    if key in rows && rows[key].windowStart >= day then rows[key].total else 0
  }

  /** The window in which a request of this day is charged: that day, or a newer one the row already has. */
  function WindowAfter(rows: Table, key: string, day: int): int {
    if key in rows then Max(day, rows[key].windowStart) else day
  }

  /** Every other row is as it was. */
  ghost predicate OthersStay(before: Table, after: Table, key: string) {
    forall k :: k != key ==> (k in after <==> k in before) && (k in before ==> after[k] == before[k])
  }

  /** The row of key, and no other, now carries the amount on top of what it carried for this day. */
  ghost predicate Charged(before: Table, after: Table, key: string, amount: nat, now: nat) {
    && key in after && OthersStay(before, after, key)
    && after[key].recipient == key
    && after[key].windowStart == WindowAfter(before, key, Align(now, DAY_MS))
    && after[key].total == Used(before, key, Align(now, DAY_MS)) + amount
    && after[key].updatedAt == (if key in before then Max(before[key].updatedAt, now) else now)
  }

  /** The row of key, and no other, carries the amount less, in the same window. */
  ghost predicate Refunded(before: Table, after: Table, key: string, amount: nat, now: nat) {
    && key in before && key in after && OthersStay(before, after, key)
    && after[key] == before[key].(total := before[key].total - amount, updatedAt := Max(before[key].updatedAt, now))
  }

  lemma {:induction false} UpsertCharges(rows: Table, key: string, amount: nat, now: nat)
    requires RowsOk(rows) && SafeNat(now)
    ensures var after := Upsert(rows, key, Align(now, DAY_MS), amount, now);
            RowsOk(after) && Charged(rows, after, key, amount, now)
  {
    UpsertKeepsRows(rows, key, amount, now);
    assert key in rows ==> RowOk(rows[key], key);
  }

  lemma {:induction false} CompensateRefunds(rows: Table, key: string, amount: nat, now: nat)
    requires RowsOk(rows) && SafeNat(now) && key in rows && rows[key].total >= amount
    ensures var after := Compensate(rows, key, rows[key].windowStart, amount, now);
            RowsOk(after) && Refunded(rows, after, key, amount, now)
  {
    CompensateKeepsRows(rows, key, rows[key].windowStart, amount, now);
  }

  /** The answer that the amounts call for when nothing else comes in between. */
  function AnswerAlone(before: Table, to: string, amount: nat, now: nat): Outcome {
    var recipient := Used(before, to, Align(now, DAY_MS)) + amount;
    var everybody := Used(before, FAUCET_GLOBAL_SPEND_KEY, Align(now, DAY_MS)) + amount;
    if recipient > 9_007_199_254_740_991 then Threw
    else if recipient > 3_000_000_000 then DeniedByRecipient(FaucetDayRetryAfter(now))
    else if everybody > 9_007_199_254_740_991 then Threw
    else if everybody > 50_000_000_000 then DeniedByGlobal(FaucetDayRetryAfter(now))
    else Granted
  }

  /** The row is charged in the window of that day, or in a newer one it had already. */
  ghost predicate InWindowOf(before: Table, after: Table, key: string, now: nat) {
    key in after && after[key].windowStart == WindowAfter(before, key, Align(now, DAY_MS))
  }

  /**
   * A reservation on its own: the answer is the one called for; a granted amount is carried by both
   * rows, a denied one by none, and no third row changes.
   */
  ghost predicate Reserved(before: Table, after: Table, to: string, amount: nat, now: nat, out: Outcome) {
    var day := Align(now, DAY_MS);
    && out == AnswerAlone(before, to, amount, now)
    && InWindowOf(before, after, to, now)
    && (out == Granted || out.DeniedByGlobal? ==> InWindowOf(before, after, FAUCET_GLOBAL_SPEND_KEY, now))
    && (out == Granted ==>
          && Used(after, to, day) == Used(before, to, day) + amount
          && Used(after, FAUCET_GLOBAL_SPEND_KEY, day) == Used(before, FAUCET_GLOBAL_SPEND_KEY, day) + amount)
    && (out.DeniedByRecipient? || out.DeniedByGlobal? ==> forall key :: Used(after, key, day) == Used(before, key, day))
    && (forall key :: key != to && key != FAUCET_GLOBAL_SPEND_KEY ==>
          (key in after <==> key in before) && (key in after ==> after[key] == before[key]))
  }

  lemma {:induction false} RecipientThrew(before: Table, t: Table, to: string, amount: nat, now: nat)
    requires Charged(before, t, to, amount, now) && t[to].total > MAX_SAFE_INTEGER
    ensures Reserved(before, t, to, amount, now, Threw)
  {
  }

  lemma {:induction false} RecipientDenied(before: Table, t1: Table, t2: Table, to: string, amount: nat, now: nat)
    requires RowsOk(before) && Charged(before, t1, to, amount, now) && Refunded(t1, t2, to, amount, now)
    requires PER_RECIPIENT_DAILY_CAP < t1[to].total <= MAX_SAFE_INTEGER
    ensures Reserved(before, t2, to, amount, now, DeniedByRecipient(FaucetDayRetryAfter(now)))
  {
  }

  /** Both rows are charged. */
  ghost predicate ChargedBoth(before: Table, t1: Table, t2: Table, to: string, amount: nat, now: nat) {
    && to != FAUCET_GLOBAL_SPEND_KEY
    && Charged(before, t1, to, amount, now) && t1[to].total <= PER_RECIPIENT_DAILY_CAP
    && Charged(t1, t2, FAUCET_GLOBAL_SPEND_KEY, amount, now)
  }

  lemma {:induction false} BothGranted(before: Table, t1: Table, t2: Table, to: string, amount: nat, now: nat)
    requires ChargedBoth(before, t1, t2, to, amount, now) && t2[FAUCET_GLOBAL_SPEND_KEY].total <= GLOBAL_DAILY_CAP
    ensures Reserved(before, t2, to, amount, now, Granted)
  {
  }

  lemma {:induction false} GlobalThrew(
      before: Table, t1: Table, t2: Table, t3: Table, to: string, amount: nat, now: nat)
    requires ChargedBoth(before, t1, t2, to, amount, now) && Refunded(t2, t3, to, amount, now)
    requires t2[FAUCET_GLOBAL_SPEND_KEY].total > MAX_SAFE_INTEGER
    ensures Reserved(before, t3, to, amount, now, Threw)
  {
  }

  lemma {:induction false} GlobalDenied(
      before: Table, t1: Table, t2: Table, t3: Table, t4: Table, to: string, amount: nat, now: nat)
    requires RowsOk(before) && ChargedBoth(before, t1, t2, to, amount, now)
    requires Refunded(t2, t3, to, amount, now) && Refunded(t3, t4, FAUCET_GLOBAL_SPEND_KEY, amount, now)
    requires GLOBAL_DAILY_CAP < t2[FAUCET_GLOBAL_SPEND_KEY].total <= MAX_SAFE_INTEGER
    ensures Reserved(before, t4, to, amount, now, DeniedByGlobal(FaucetDayRetryAfter(now)))
  {
  }

  class DurableStore {
    var rows: Table

    ghost predicate Valid()
      reads this
    {
      RowsOk(rows)
    }

    constructor ()
      ensures Valid() && rows == map[]
    {
      rows := map[];
    }

    method Reserve(key: string, amount: nat, now: nat) returns (row: Row)
      requires Valid() && SafeNat(now) && amount > 0
      modifies this
      ensures Valid() && Charged(old(rows), rows, key, amount, now) && row == rows[key]
      ensures SpendRowValid(row, key, Align(now, DAY_MS)) <==> row.total <= MAX_SAFE_INTEGER
    {
      UpsertCharges(rows, key, amount, now);
      UpsertIsValid(rows, key, amount, now);
      rows := Upsert(rows, key, Align(now, DAY_MS), amount, now);
      row := rows[key];
    }

    method CompensateSpend(key: string, windowStart: int, amount: nat, now: nat)
      requires Valid() && SafeNat(now)
      requires key in rows && rows[key].windowStart == windowStart && rows[key].total >= amount
      modifies this
      ensures Valid() && Refunded(old(rows), rows, key, amount, now)
    {
      CompensateRefunds(rows, key, amount, now);
      rows := Compensate(rows, key, windowStart, amount, now);
    }

    /**
     * An undisturbed reservation grants exactly when the amount fits under both caps, and charges
     * both rows; when it denies, what both rows carry for this day is what they carried before.
     */
    method ReserveSpendDurable(to: string, amount: int, now: int) returns (out: Outcome)
      requires Valid()
      modifies this
      ensures Valid()
      ensures to == "" || to == "__global__" || !(1 <= amount <= 9_007_199_254_740_991)
              || !(0 <= now <= 9_007_199_254_740_991)
              ==> out == Threw && rows == old(rows)
      ensures && to != "" && to != "__global__" && 1 <= amount <= 9_007_199_254_740_991
              && 0 <= now <= 9_007_199_254_740_991
              ==> Reserved(old(rows), rows, to, amount, now, out)
      ensures out.DeniedByRecipient? || out.DeniedByGlobal? ==>
                Align(now + 1000 * out.retryAfter, DAY_MS) == Align(now, DAY_MS) + DAY_MS
    {
      if !ValidRequest(to, amount, now) {
        return Threw;
      }
      FaucetDelayReachesNextDay(now);
      ghost var before := rows;
      var recRow := Reserve(to, amount, now);
      ghost var t1 := rows;
      if !SpendRowValid(recRow, to, Align(now, DAY_MS)) {
        RecipientThrew(before, t1, to, amount, now);
        return Threw;
      }
      if recRow.total > PER_RECIPIENT_DAILY_CAP {
        CompensateSpend(to, recRow.windowStart, amount, now);
        RecipientDenied(before, t1, rows, to, amount, now);
        return DeniedByRecipient(FaucetDayRetryAfter(now));
      }
      var gloRow := Reserve(FAUCET_GLOBAL_SPEND_KEY, amount, now);
      ghost var t2 := rows;
      if !SpendRowValid(gloRow, FAUCET_GLOBAL_SPEND_KEY, Align(now, DAY_MS)) {
        CompensateSpend(to, recRow.windowStart, amount, now);
        GlobalThrew(before, t1, t2, rows, to, amount, now);
        return Threw;
      }
      if gloRow.total > GLOBAL_DAILY_CAP {
        CompensateSpend(to, recRow.windowStart, amount, now);
        ghost var t3 := rows;
        CompensateSpend(FAUCET_GLOBAL_SPEND_KEY, gloRow.windowStart, amount, now);
        GlobalDenied(before, t1, t2, t3, rows, to, amount, now);
        return DeniedByGlobal(FaucetDayRetryAfter(now));
      }
      BothGranted(before, t1, t2, to, amount, now);
      return Granted;
    }
  }

  datatype Spent = Spent(total: nat, windowStart: nat)

  /** The in-memory fallback: rolling windows of a day, one per recipient and one for everybody. */
  class MemoryStore {
    var spent: map<string, Spent>
    var globalTotal: nat
    var globalWindowStart: nat

    ghost predicate Valid()
      reads this
    {
      && globalTotal <= GLOBAL_DAILY_CAP
      && forall to :: to in spent ==> spent[to].total <= PER_RECIPIENT_DAILY_CAP
    }

    constructor ()
      ensures Valid() && spent == map[] && globalTotal == 0 && globalWindowStart == 0
    {
      spent := map[];
      globalTotal := 0;
      globalWindowStart := 0;
    }

    /** The recipient's entry that is still open at time now. */
    function Open(to: string, now: nat): (e: Option<Spent>)
      reads this
      ensures e.Some? <==> to in spent && now - spent[to].windowStart <= DAY_MS
      ensures e.Some? ==> e.value == spent[to]
    {
      if to in spent && now - spent[to].windowStart <= DAY_MS then Some(spent[to]) else None
    }

    /** What the open global window carries at time now. */
    function GlobalUsed(now: nat): nat
      reads this
    {
      if now - globalWindowStart > DAY_MS then 0 else globalTotal
    }

    /**
     * A denied call leaves everything as it was exactly when the global window is still open; on an
     * expired window it resets that window although it grants nothing.
     */
    method ReserveDaily(to: string, amount: nat, now: nat) returns (ok: bool)
      requires Valid()
      modifies this
      ensures Valid()
      ensures ok <==>
                && (if old(Open(to, now)).Some? then old(Open(to, now)).value.total else 0) + amount
                   <= 3_000_000_000
                && old(GlobalUsed(now)) + amount <= 50_000_000_000
      ensures ok ==>
                && globalTotal == old(GlobalUsed(now)) + amount
                && spent == old(spent)[to :=
                     if old(Open(to, now)).Some?
                     then Spent(old(Open(to, now)).value.total + amount, old(Open(to, now)).value.windowStart)
                     else Spent(amount, now)]
      ensures globalWindowStart == if now - old(globalWindowStart) > DAY_MS then now else old(globalWindowStart)
      ensures !ok ==> spent == old(spent) && globalTotal == old(GlobalUsed(now))
      ensures !ok ==>
                (globalTotal == old(globalTotal) && globalWindowStart == old(globalWindowStart)
                 <==> now - old(globalWindowStart) <= DAY_MS)
    {
      if now - globalWindowStart > DAY_MS {
        globalWindowStart := now;
        globalTotal := 0;
      }
      var rec := Open(to, now);
      var prior := if rec.Some? then rec.value.total else 0;
      if prior + amount > PER_RECIPIENT_DAILY_CAP {
        return false;
      }
      if globalTotal + amount > GLOBAL_DAILY_CAP {
        return false;
      }
      spent := spent[to := Spent(prior + amount, if rec.Some? then rec.value.windowStart else now)];
      globalTotal := globalTotal + amount;
      return true;
    }
  }

  /**
   * A denied ReserveDaily that does not leave the state as it was: "a" spends its cap at time 0, and
   * a day later "b" asks for too much; the totals before and after show the global window reset.
   */
  method DeniedCallResetsTheWindow() returns (ok: bool, before: (nat, nat), after: (nat, nat))
    ensures !ok
    ensures before == (PER_RECIPIENT_DAILY_CAP, 0) && after == (0, DAY_MS + 1)
  {
    var store := new MemoryStore();
    var spent := store.ReserveDaily("a", PER_RECIPIENT_DAILY_CAP, 0);
    before := (store.globalTotal, store.globalWindowStart);
    ok := store.ReserveDaily("b", PER_RECIPIENT_DAILY_CAP + 1, DAY_MS + 1);
    after := (store.globalTotal, store.globalWindowStart);
  }
}
