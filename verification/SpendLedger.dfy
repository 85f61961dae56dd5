/**
 * The faucet's durable daily caps. Each SQL statement is one atomic step on the spend table; any
 * number of calls interleave their statements, with arbitrary clock readings, statements that
 * throw before or after taking effect, and compensations that are lost.
 */
module SpendLedger {
  import opened Basics
  import opened Windows

  const PER_RECIPIENT_DAILY_CAP: nat := 300 * 10_000_000
  const GLOBAL_DAILY_CAP: nat := 5_000 * 10_000_000
  const FAUCET_GLOBAL_SPEND_KEY: string := "__global__"

  function CapFor(key: string): nat {
    if key == FAUCET_GLOBAL_SPEND_KEY then GLOBAL_DAILY_CAP else PER_RECIPIENT_DAILY_CAP
  }

  datatype Row = Row(recipient: string, windowStart: int, total: int, updatedAt: int)
  type Table = map<string, Row>

  // ---- The two SQL statements ----

  /** The row INSERT ... ON CONFLICT ... RETURNING leaves behind and returns. */
  function UpsertedRow(t: Table, key: string, windowStart: int, amount: int, now: int): Row {
    if key !in t then
      Row(key, windowStart, amount, now)
    else
      var was := t[key];
      var newer := windowStart > was.windowStart;
      Row(
        was.recipient,
        if newer then windowStart else was.windowStart,
        if newer then amount else was.total + amount,
        Max(was.updatedAt, now)
      )
  }

  function Upsert(t: Table, key: string, windowStart: int, amount: int, now: int): Table {
    t[key := UpsertedRow(t, key, windowStart, amount, now)]
  }

  /** The compensating UPDATE: it touches the row only while the row still has the given window. */
  function Compensate(t: Table, key: string, windowStart: int, amount: int, now: int): Table {
    if key in t && t[key].windowStart == windowStart then
      var was := t[key];
      t[key := was.(total := Max(0, was.total - amount), updatedAt := Max(was.updatedAt, now))]
    else
      t
  }

  predicate SpendRowValid(row: Row, expectedRecipient: string, windowStart: int) {
    && row.recipient == expectedRecipient
    && SafeNat(row.windowStart)
    && SafeNat(row.total)
    && SafeNat(row.updatedAt)
    && row.windowStart % DAY_MS == 0
    && (row.windowStart == windowStart || (row.windowStart > windowStart && row.total >= 1))
  }

  predicate ValidRequest(to: string, amount: int, now: int) {
    && SafeNat(now)
    && SafeNat(amount) && amount > 0
    && to != "" && to != FAUCET_GLOBAL_SPEND_KEY
  }

  // ---- One call as a thread ----

  datatype Outcome = Granted | DeniedByRecipient(retryAfter: nat) | DeniedByGlobal(retryAfter: nat) | Threw

  /** The statement a call runs next, or its result. */
  datatype Phase =
    | ReserveRecipient
    | UndoDeniedRecipient
    | ReserveGlobal
    | UndoMalformedGlobal
    | UndoDeniedGlobal
    | UndoGlobalRow
    | Done(outcome: Outcome)

  /**
   * rec and glo are the windows in which the recipient row and the global row currently carry
   * this call's amount: set by a reserve that took effect, cleared by a compensation that did.
   */
  datatype Call = Call(
    recipient: string, amount: nat, now: nat, phase: Phase, rec: Option<int>, glo: Option<int>)

  /** What happens to a statement: it returns, or throws without or after taking effect. */
  datatype Fault = Returns | ThrowsBefore | ThrowsAfter

  /** compensateSpend on the recipient row; a thrown statement is swallowed. */
  function UndoRecipient(t: Table, c: Call, fault: Fault, next: Phase): (Table, Call) {
    if c.rec.None? || fault.ThrowsBefore? then (t, c.(phase := next))
    else (Compensate(t, c.recipient, c.rec.value, c.amount, c.now), c.(phase := next, rec := None))
  }

  /** Run the next statement of call c. */
  function Statement(t: Table, c: Call, fault: Fault): (Table, Call) {
    var day := Align(c.now, DAY_MS);
    match c.phase
    case ReserveRecipient =>
      if fault.ThrowsBefore? then (t, c.(phase := Done(Threw)))
      else
        var row := UpsertedRow(t, c.recipient, day, c.amount, c.now);
        var held := c.(rec := Some(row.windowStart));
        ( Upsert(t, c.recipient, day, c.amount, c.now),
          if fault.ThrowsAfter? || !SpendRowValid(row, c.recipient, day) then held.(phase := Done(Threw))
          else if row.total > PER_RECIPIENT_DAILY_CAP then held.(phase := UndoDeniedRecipient)
          else held.(phase := ReserveGlobal) )
    case ReserveGlobal =>
      if fault.ThrowsBefore? then (t, c.(phase := Done(Threw)))
      else
        var row := UpsertedRow(t, FAUCET_GLOBAL_SPEND_KEY, day, c.amount, c.now);
        var held := c.(glo := Some(row.windowStart));
        ( Upsert(t, FAUCET_GLOBAL_SPEND_KEY, day, c.amount, c.now),
          if fault.ThrowsAfter? then held.(phase := Done(Threw))
          else if !SpendRowValid(row, FAUCET_GLOBAL_SPEND_KEY, day) then held.(phase := UndoMalformedGlobal)
          else if row.total > GLOBAL_DAILY_CAP then held.(phase := UndoDeniedGlobal)
          else held.(phase := Done(Granted)) )
    case UndoDeniedRecipient =>
      UndoRecipient(t, c, fault, Done(DeniedByRecipient(FaucetDayRetryAfter(c.now))))
    case UndoMalformedGlobal =>
      UndoRecipient(t, c, fault, Done(Threw))
    case UndoDeniedGlobal =>
      UndoRecipient(t, c, fault, UndoGlobalRow)
    case UndoGlobalRow =>
      var denied := Done(DeniedByGlobal(FaucetDayRetryAfter(c.now)));
      if c.glo.None? || fault.ThrowsBefore? then (t, c.(phase := denied))
      else
        ( Compensate(t, FAUCET_GLOBAL_SPEND_KEY, c.glo.value, c.amount, c.now),
          c.(phase := denied, glo := None) )
    case Done(_) => (t, c)
  }

  // ---- Any number of interleaved calls ----

  datatype State = State(table: Table, calls: seq<Call>)

  datatype Step =
    | Begin(to: string, amount: int, now: int)
    | Run(call: nat, fault: Fault)

  const EMPTY: State := State(map[], [])

  function Apply(s: State, step: Step): State {
    match step
    case Begin(to, amount, now) =>
      if ValidRequest(to, amount, now)
      then s.(calls := s.calls + [Call(to, amount, now, ReserveRecipient, None, None)])
      else s
    case Run(i, fault) =>
      if i < |s.calls| then
        var (t, c) := Statement(s.table, s.calls[i], fault);
        State(t, s.calls[i := c])
      else s
  }

  /** The state after a whole run; a step that names no call changes nothing. */
  function Exec(steps: seq<Step>): State {
    if steps == [] then EMPTY else Apply(Exec(steps[..|steps| - 1]), steps[|steps| - 1])
  }

  // ---- What the rows owe to the calls ----

  /** The part of row key, window w, that call c put there and has not taken back. */
  function HeldBy(c: Call, key: string, w: int): nat {
    (if c.recipient == key && c.rec == Some(w) then c.amount else 0) +
    (if key == FAUCET_GLOBAL_SPEND_KEY && c.glo == Some(w) then c.amount else 0)
  }

  /** The part of HeldBy that has passed the check of that row's cap. */
  function PassedBy(c: Call, key: string, w: int): nat {
    if c.phase == Done(Granted) || (c.phase == ReserveGlobal && key != FAUCET_GLOBAL_SPEND_KEY)
    then HeldBy(c, key, w) else 0
  }

  /** The part that was granted. */
  function GrantedBy(c: Call, key: string, w: int): nat {
    if c.phase == Done(Granted) then HeldBy(c, key, w) else 0
  }

  function HeldIn(key: string, w: int): Call -> nat { (c: Call) => HeldBy(c, key, w) }

  function Held(calls: seq<Call>, key: string, w: int): nat { Sum(calls, HeldIn(key, w)) }

  function PassedIn(key: string, w: int): Call -> nat { (c: Call) => PassedBy(c, key, w) }

  function Passed(calls: seq<Call>, key: string, w: int): nat { Sum(calls, PassedIn(key, w)) }

  function GrantedIn(key: string, w: int): Call -> nat { (c: Call) => GrantedBy(c, key, w) }

  /** Everything granted against row key in window w. */
  function GrantedTotal(calls: seq<Call>, key: string, w: int): nat { Sum(calls, GrantedIn(key, w)) }

  // ---- The inductive invariant ----

  predicate RowOk(row: Row, key: string) {
    && row.recipient == key
    && SafeNat(row.windowStart) && row.windowStart % DAY_MS == 0
    && row.total >= 0
    && SafeNat(row.updatedAt)
  }

  ghost predicate RowsOk(t: Table) {
    forall key :: key in t ==> RowOk(t[key], key)
  }

  /** The recipient row carries the call's amount at this point of its run. */
  predicate HoldsRecipient(p: Phase) {
    p.UndoDeniedRecipient? || p.ReserveGlobal? || p.UndoMalformedGlobal? || p.UndoDeniedGlobal? || p == Done(Granted)
  }

  predicate HoldsGlobal(p: Phase) {
    p.UndoMalformedGlobal? || p.UndoDeniedGlobal? || p.UndoGlobalRow? || p == Done(Granted)
  }

  predicate CallOk(c: Call) {
    && ValidRequest(c.recipient, c.amount, c.now)
    && (c.phase.ReserveRecipient? ==> c.rec.None?)
    && (c.phase.ReserveRecipient? || c.phase.UndoDeniedRecipient? || c.phase.ReserveGlobal? ==> c.glo.None?)
    && (HoldsRecipient(c.phase) ==> c.rec.Some?)
    && (HoldsGlobal(c.phase) ==> c.glo.Some?)
    && (c.rec.Some? ==> c.rec.value >= Align(c.now, DAY_MS))
    && (c.glo.Some? ==> c.glo.value >= Align(c.now, DAY_MS))
  }

  ghost predicate CallsOk(calls: seq<Call>) {
    forall i :: 0 <= i < |calls| ==> CallOk(calls[i])
  }

  /** The row's total is exactly what the calls hold in its window; no newer window holds anything. */
  predicate Balanced(t: Table, calls: seq<Call>, key: string, w: int) {
    && (key in t && w == t[key].windowStart ==> t[key].total == Held(calls, key, w))
    && (key !in t || w > t[key].windowStart ==> Held(calls, key, w) == 0)
  }

  ghost predicate Ledger(s: State) {
    forall key: string, w: int :: Balanced(s.table, s.calls, key, w)
  }

  ghost predicate WithinCaps(s: State) {
    forall key: string, w: int :: Passed(s.calls, key, w) <= CapFor(key)
  }

  ghost predicate Inv(s: State) {
    RowsOk(s.table) && CallsOk(s.calls) && Ledger(s) && WithinCaps(s)
  }

  lemma {:induction false} UpsertKeepsRows(t: Table, key: string, amount: nat, now: nat)
    requires RowsOk(t) && SafeNat(now)
    ensures RowsOk(Upsert(t, key, Align(now, DAY_MS), amount, now))
    ensures UpsertedRow(t, key, Align(now, DAY_MS), amount, now).windowStart >= Align(now, DAY_MS)
  {
    assert key in t ==> RowOk(t[key], key);
  }

  lemma {:induction false} CompensateKeepsRows(t: Table, key: string, windowStart: int, amount: nat, now: nat)
    requires RowsOk(t) && SafeNat(now)
    ensures RowsOk(Compensate(t, key, windowStart, amount, now))
  {
    assert key in t ==> RowOk(t[key], key);
  }

  lemma {:induction false} StatementKeepsRows(t: Table, c: Call, fault: Fault)
    requires RowsOk(t) && CallOk(c)
    ensures RowsOk(Statement(t, c, fault).0)
  {
    match c.phase
    case ReserveRecipient => UpsertKeepsRows(t, c.recipient, c.amount, c.now);
    case ReserveGlobal => UpsertKeepsRows(t, FAUCET_GLOBAL_SPEND_KEY, c.amount, c.now);
    case UndoGlobalRow => CompensateKeepsRows(t, FAUCET_GLOBAL_SPEND_KEY, c.glo.value, c.amount, c.now);
    case Done(_) =>
    case _ => CompensateKeepsRows(t, c.recipient, c.rec.value, c.amount, c.now);
  }

  lemma {:induction false} StatementKeepsCall(t: Table, c: Call, fault: Fault)
    requires RowsOk(t) && CallOk(c)
    ensures CallOk(Statement(t, c, fault).1)
  {
    match c.phase
    case ReserveRecipient => UpsertKeepsRows(t, c.recipient, c.amount, c.now);
    case ReserveGlobal => UpsertKeepsRows(t, FAUCET_GLOBAL_SPEND_KEY, c.amount, c.now);
    case _ =>
  }

  /** Row key, window w, carries the amount h. */
  predicate Carries(t: Table, key: string, w: int, h: int) {
    && (key in t && w == t[key].windowStart ==> t[key].total == h)
    && (key !in t || w > t[key].windowStart ==> h == 0)
  }

  lemma {:induction false} UpsertCarries(
      t: Table, at: string, day: int, amount: nat, now: int, key: string, w: int, h: int)
    requires Carries(t, key, w, h)
    ensures Carries(Upsert(t, at, day, amount, now), key, w,
                    h + if key == at && w == UpsertedRow(t, at, day, amount, now).windowStart then amount else 0)
  {
  }

  lemma {:induction false} CompensateCarries(
    t: Table, at: string, window: int, amount: nat, now: int, key: string, w: int, h: int)
    requires Carries(t, key, w, h)
    requires key == at && w == window ==> h >= amount
    ensures Carries(Compensate(t, at, window, amount, now), key, w,
                    h - if key == at && w == window then amount else 0)
  {
  }

  lemma {:induction false} ReserveBalances(t: Table, c: Call, fault: Fault, key: string, w: int, others: nat)
    requires CallOk(c) && (c.phase.ReserveRecipient? || c.phase.ReserveGlobal?)
    requires Carries(t, key, w, others + HeldBy(c, key, w))
    ensures var (t', c') := Statement(t, c, fault); Carries(t', key, w, others + HeldBy(c', key, w))
  {
    var at := if c.phase.ReserveRecipient? then c.recipient else FAUCET_GLOBAL_SPEND_KEY;
    UpsertCarries(t, at, Align(c.now, DAY_MS), c.amount, c.now, key, w, others + HeldBy(c, key, w));
  }

  lemma {:induction false} UndoBalances(t: Table, c: Call, fault: Fault, key: string, w: int, others: nat)
    requires CallOk(c) && c.rec.Some?
    requires Carries(t, key, w, others + HeldBy(c, key, w))
    ensures forall next :: var (t', c') := UndoRecipient(t, c, fault, next);
                           Carries(t', key, w, others + HeldBy(c', key, w))
  {
    CompensateCarries(t, c.recipient, c.rec.value, c.amount, c.now, key, w, others + HeldBy(c, key, w));
  }

  /** What one statement does to one row and to the share of its caller. */
  lemma {:induction false} StatementBalances(t: Table, c: Call, fault: Fault, key: string, w: int, others: nat)
    requires CallOk(c) && Carries(t, key, w, others + HeldBy(c, key, w))
    ensures var (t', c') := Statement(t, c, fault); Carries(t', key, w, others + HeldBy(c', key, w))
  {
    match c.phase
    case ReserveRecipient => ReserveBalances(t, c, fault, key, w, others);
    case ReserveGlobal => ReserveBalances(t, c, fault, key, w, others);
    case UndoGlobalRow =>
      CompensateCarries(t, FAUCET_GLOBAL_SPEND_KEY, c.glo.value, c.amount, c.now, key, w,
                        others + HeldBy(c, key, w));
    case Done(_) =>
    case _ => UndoBalances(t, c, fault, key, w, others);
  }

  /** A statement lets a call past a cap only when the whole row fits under it. */
  lemma {:induction false} StatementPasses(t: Table, c: Call, fault: Fault, key: string, w: int)
    requires RowsOk(t) && CallOk(c)
    ensures var (t', c') := Statement(t, c, fault);
            PassedBy(c', key, w) <= PassedBy(c, key, w) ||
            (key in t' && t'[key].windowStart == w && t'[key].total <= CapFor(key))
  {
  }

  lemma {:induction false} StepKeepsLedger(s: State, i: nat, fault: Fault, key: string, w: int)
    requires Inv(s) && i < |s.calls|
    ensures var s' := Apply(s, Run(i, fault));
            Balanced(s'.table, s'.calls, key, w) && Passed(s'.calls, key, w) <= CapFor(key)
  {
    var c := s.calls[i];
    var (t', c') := Statement(s.table, c, fault);
    var calls' := s.calls[i := c'];
    SumUpdate(s.calls, i, c', HeldIn(key, w));
    SumUpdate(s.calls, i, c', PassedIn(key, w));
    SumAtLeast(s.calls, i, HeldIn(key, w));
    assert Balanced(s.table, s.calls, key, w);
    var others := Held(s.calls, key, w) - HeldBy(c, key, w);
    StatementBalances(s.table, c, fault, key, w, others);
    assert Held(calls', key, w) == others + HeldBy(c', key, w);
    StatementPasses(s.table, c, fault, key, w);
    SumMonotone(calls', PassedIn(key, w), HeldIn(key, w));
    assert Passed(s.calls, key, w) <= CapFor(key);
  }

  lemma {:induction false} ApplyKeepsInv(s: State, step: Step)
    requires Inv(s)
    ensures Inv(Apply(s, step))
  {
    var s' := Apply(s, step);
    match step
    case Begin(to, amount, now) =>
      if ValidRequest(to, amount, now) {
        var c := s'.calls[|s.calls|];
        forall key: string, w: int
          ensures Balanced(s'.table, s'.calls, key, w) && Passed(s'.calls, key, w) <= CapFor(key)
        {
          SumAppend(s.calls, c, HeldIn(key, w));
          SumAppend(s.calls, c, PassedIn(key, w));
          assert Balanced(s.table, s.calls, key, w);
          assert Passed(s.calls, key, w) <= CapFor(key);
        }
      }
    case Run(i, fault) =>
      if i < |s.calls| {
        StatementKeepsRows(s.table, s.calls[i], fault);
        StatementKeepsCall(s.table, s.calls[i], fault);
        forall key: string, w: int
          ensures Balanced(s'.table, s'.calls, key, w) && Passed(s'.calls, key, w) <= CapFor(key)
        {
          StepKeepsLedger(s, i, fault, key, w);
        }
      }
  }

  lemma {:induction false} ReachableInv(steps: seq<Step>)
    ensures Inv(Exec(steps))
  {
    if steps != [] {
      ReachableInv(steps[..|steps| - 1]);
      ApplyKeepsInv(Exec(steps[..|steps| - 1]), steps[|steps| - 1]);
    }
  }

  // ---- Main results ----

  /** In every run, what is granted against one row in one window never exceeds that row's cap. */
  lemma {:induction false} GrantsStayWithinCaps(steps: seq<Step>, key: string, w: int)
    ensures GrantedTotal(Exec(steps).calls, key, w) <= CapFor(key)
  {
    ReachableInv(steps);
    SumMonotone(Exec(steps).calls, GrantedIn(key, w), PassedIn(key, w));
    assert Passed(Exec(steps).calls, key, w) <= CapFor(key);
  }

  /** Every granted call is charged in full to its recipient and to the global row, never to a past day. */
  lemma {:induction false} GrantsAreCharged(steps: seq<Step>, i: nat)
    requires i < |Exec(steps).calls| && Exec(steps).calls[i].phase == Done(Granted)
    ensures var s := Exec(steps);
            var c := s.calls[i];
            && c.rec.Some? && c.glo.Some?
            && Align(c.now, DAY_MS) <= Min(c.rec.value, c.glo.value)
            && c.amount <= GrantedTotal(s.calls, c.recipient, c.rec.value)
            && c.amount <= GrantedTotal(s.calls, FAUCET_GLOBAL_SPEND_KEY, c.glo.value)
  {
    ReachableInv(steps);
    var s := Exec(steps);
    var c := s.calls[i];
    assert CallOk(c);
    SumAtLeast(s.calls, i, GrantedIn(c.recipient, c.rec.value));
    SumAtLeast(s.calls, i, GrantedIn(FAUCET_GLOBAL_SPEND_KEY, c.glo.value));
  }

  /**
   * In every run each row's total is exactly what the calls hold in its window: granted amounts,
   * amounts still being decided, and amounts whose compensation was lost.
   */
  lemma {:induction false} RowsAreExact(steps: seq<Step>, key: string)
    requires key in Exec(steps).table
    ensures var s := Exec(steps);
            s.table[key].total == Held(s.calls, key, s.table[key].windowStart)
  {
    ReachableInv(steps);
    var s := Exec(steps);
    assert Balanced(s.table, s.calls, key, s.table[key].windowStart);
  }

  /** MAX(0, ...) never truncates: a compensation finds at least its own amount in the row. */
  lemma {:induction false} CompensationNeverTruncates(steps: seq<Step>, i: nat)
    requires i < |Exec(steps).calls|
    ensures var s := Exec(steps);
            var c := s.calls[i];
            && (c.rec.Some? && c.recipient in s.table && s.table[c.recipient].windowStart == c.rec.value
                ==> s.table[c.recipient].total >= c.amount)
            && (c.glo.Some? && FAUCET_GLOBAL_SPEND_KEY in s.table
                && s.table[FAUCET_GLOBAL_SPEND_KEY].windowStart == c.glo.value
                ==> s.table[FAUCET_GLOBAL_SPEND_KEY].total >= c.amount)
  {
    ReachableInv(steps);
    var s := Exec(steps);
    var c := s.calls[i];
    if c.rec.Some? {
      SumAtLeast(s.calls, i, HeldIn(c.recipient, c.rec.value));
      assert Balanced(s.table, s.calls, c.recipient, c.rec.value);
    }
    if c.glo.Some? {
      SumAtLeast(s.calls, i, HeldIn(FAUCET_GLOBAL_SPEND_KEY, c.glo.value));
      assert Balanced(s.table, s.calls, FAUCET_GLOBAL_SPEND_KEY, c.glo.value);
    }
  }

  lemma {:induction false} UpsertIsValid(t: Table, key: string, amount: nat, now: nat)
    requires RowsOk(t) && SafeNat(now) && amount > 0
    ensures var day := Align(now, DAY_MS);
            var row := UpsertedRow(t, key, day, amount, now);
            SpendRowValid(row, key, day) <==> row.total <= MAX_SAFE_INTEGER
  {
    assert key in t ==> RowOk(t[key], key);
  }

  /** The validator turns away a row the upsert returned only when its total is no safe integer. */
  lemma {:induction false} SpendValidatorIsComplete(steps: seq<Step>, key: string, amount: nat, now: nat)
    requires 0 < amount && SafeNat(now)
    ensures var day := Align(now, DAY_MS);
            var row := UpsertedRow(Exec(steps).table, key, day, amount, now);
            SpendRowValid(row, key, day) <==> row.total <= MAX_SAFE_INTEGER
  {
    ReachableInv(steps);
    UpsertIsValid(Exec(steps).table, key, amount, now);
  }

  /** Everything all calls together have asked for. */
  function Requested(calls: seq<Call>): nat { Sum(calls, (c: Call) => c.amount) }

  /** No statement throws, and all amounts asked for add up to a safe integer. */
  predicate CleanRun(steps: seq<Step>) {
    && (forall n :: 0 <= n < |steps| && steps[n].Run? ==> steps[n].fault.Returns?)
    && Requested(Exec(steps).calls) <= MAX_SAFE_INTEGER
  }

  /** The part of one row that calls hold never exceeds what they asked for. */
  lemma {:induction false} HeldIsRequested(s: State, key: string, w: int)
    requires CallsOk(s.calls)
    ensures Held(s.calls, key, w) <= Requested(s.calls)
  {
    SumMonotone(s.calls, HeldIn(key, w), (c: Call) => c.amount);
  }

  lemma {:induction false} StatementKeepsAmount(t: Table, c: Call, fault: Fault)
    ensures Statement(t, c, fault).1.amount == c.amount
  {
  }

  lemma {:induction false} CleanPrefix(steps: seq<Step>)
    requires steps != [] && CleanRun(steps)
    ensures CleanRun(steps[..|steps| - 1])
  {
    var before, step := Exec(steps[..|steps| - 1]), steps[|steps| - 1];
    var amount := (c: Call) => c.amount;
    if step.Run? && step.call < |before.calls| {
      StatementKeepsAmount(before.table, before.calls[step.call], step.fault);
      SumUpdate(before.calls, step.call, Exec(steps).calls[step.call], amount);
    } else if step.Begin? && Exec(steps) != before {
      SumAppend(before.calls, Exec(steps).calls[|before.calls|], amount);
    }
  }

  /** In a clean run every row a statement returns is valid. */
  lemma {:induction false} CleanRowsAreSafe(steps: seq<Step>, key: string)
    requires CleanRun(steps) && key in Exec(steps).table
    ensures Exec(steps).table[key].total <= MAX_SAFE_INTEGER
  {
    ReachableInv(steps);
    RowsAreExact(steps, key);
    HeldIsRequested(Exec(steps), key, Exec(steps).table[key].windowStart);
  }

  predicate Idle(s: State) {
    forall i :: 0 <= i < |s.calls| ==> s.calls[i].phase.Done?
  }

  /** Without faults a finished call that was not granted holds nothing, and an undo never pends alone. */
  predicate Tidy(c: Call) {
    && c.phase != UndoMalformedGlobal
    && (c.phase.UndoGlobalRow? ==> c.rec.None?)
    && (c.phase.Done? && c.phase != Done(Granted) ==> c.rec.None? && c.glo.None?)
  }

  /** A statement that returns a safe row, or undoes, keeps its call tidy. */
  lemma {:induction false} StatementKeepsTidy(t: Table, c: Call)
    requires RowsOk(t) && CallOk(c) && Tidy(c)
    requires var t' := Statement(t, c, Returns).0; forall key :: key in t' ==> t'[key].total <= MAX_SAFE_INTEGER
    ensures Tidy(Statement(t, c, Returns).1)
  {
    match c.phase
    case ReserveRecipient =>
      UpsertIsValid(t, c.recipient, c.amount, c.now);
      assert c.recipient in Statement(t, c, Returns).0;
    case ReserveGlobal =>
      UpsertIsValid(t, FAUCET_GLOBAL_SPEND_KEY, c.amount, c.now);
      assert FAUCET_GLOBAL_SPEND_KEY in Statement(t, c, Returns).0;
    case _ =>
  }

  lemma {:induction false} CleanRunIsTidy(steps: seq<Step>, i: nat)
    requires CleanRun(steps) && i < |Exec(steps).calls|
    ensures Tidy(Exec(steps).calls[i])
  {
    if steps != [] {
      var before, step := steps[..|steps| - 1], steps[|steps| - 1];
      ReachableInv(before);
      CleanPrefix(steps);
      var s := Exec(before);
      if i < |s.calls| {
        CleanRunIsTidy(before, i);
        assert CallOk(s.calls[i]);
        if step.Run? && step.call == i {
          forall key | key in Exec(steps).table ensures Exec(steps).table[key].total <= MAX_SAFE_INTEGER {
            CleanRowsAreSafe(steps, key);
          }
          StatementKeepsTidy(s.table, s.calls[i]);
        }
      }
    }
  }

  /**
   * Conservation: once no call is in progress and no statement has thrown, each row's total is
   * exactly what was granted in its window, so denied requests have left no trace.
   */
  lemma {:induction false} IdleRowsEqualGrants(steps: seq<Step>, key: string)
    requires CleanRun(steps) && Idle(Exec(steps)) && key in Exec(steps).table
    ensures var s := Exec(steps);
            s.table[key].total == GrantedTotal(s.calls, key, s.table[key].windowStart)
    ensures Exec(steps).table[key].total <= CapFor(key)
  {
    var s := Exec(steps);
    var w := s.table[key].windowStart;
    RowsAreExact(steps, key);
    forall i | 0 <= i < |s.calls| ensures HeldBy(s.calls[i], key, w) == GrantedBy(s.calls[i], key, w) {
      CleanRunIsTidy(steps, i);
    }
    SumSame(s.calls, HeldIn(key, w), GrantedIn(key, w));
    GrantsStayWithinCaps(steps, key, w);
  }

  // ---- A rollback makes the faucet's delay too short ----

  lemma {:induction false} ExecOneMore(steps: seq<Step>, step: Step)
    ensures Exec(steps + [step]) == Apply(Exec(steps), step)
  {
    assert (steps + [step])[..|steps|] == steps;
  }

  /** The call was denied by its recipient's row, which still denies once the delay it was given is over. */
  predicate DeniedBeyondItsDelay(s: State, i: nat) {
    && i < |s.calls| && s.calls[i].phase.Done? && s.calls[i].phase.outcome.DeniedByRecipient?
    && s.calls[i].recipient in s.table
    && var row := s.table[s.calls[i].recipient];
    && Align(s.calls[i].now + 1000 * s.calls[i].phase.outcome.retryAfter, DAY_MS) <= row.windowStart
    && row.total + s.calls[i].amount > PER_RECIPIENT_DAILY_CAP
  }

  /** A recipient spends its whole cap on day one, then the clock shows day zero and it asks again. */
  lemma {:induction false} RollbackOutlastsTheDelay() returns (steps: seq<Step>)
    ensures DeniedBeyondItsDelay(Exec(steps), 1)
  {
    var spend, again := Begin("r", PER_RECIPIENT_DAILY_CAP, DAY_MS), Begin("r", 1, 0);
    var first, second := Run(0, Returns), Run(1, Returns);
    AlignUnique(DAY_MS, DAY_MS, DAY_MS);
    AlignUnique(0, DAY_MS, 0);
    var global := FAUCET_GLOBAL_SPEND_KEY;
    assert |"r"| != |global|;
    steps := [];
    ExecOneMore(steps, spend);
    steps := steps + [spend];
    ExecOneMore(steps, first);
    steps := steps + [first];
    assert Exec(steps).table["r"] == Row("r", DAY_MS, PER_RECIPIENT_DAILY_CAP, DAY_MS);
    ExecOneMore(steps, first);
    steps := steps + [first];
    assert Exec(steps).table["r"] == Row("r", DAY_MS, PER_RECIPIENT_DAILY_CAP, DAY_MS);
    assert Exec(steps).calls[0].phase == Done(Granted);
    ExecOneMore(steps, again);
    steps := steps + [again];
    ExecOneMore(steps, second);
    steps := steps + [second];
    assert Exec(steps).calls[1].phase == UndoDeniedRecipient;
    ExecOneMore(steps, second);
    steps := steps + [second];
    assert Exec(steps).table["r"].total == PER_RECIPIENT_DAILY_CAP;
    FaucetDelayReachesNextDay(0);
  }
}
