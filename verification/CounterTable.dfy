/**
 * The durable rate-limit counters: one row per (bucket, client), advanced by a single atomic
 * upsert. Isolates interleave upserts in any order and read clocks that may roll back.
 */
module CounterTable {
  import opened Basics
  import opened Windows

  datatype Row = Row(bucket: string, ip: string, windowStart: int, count: int, updatedAt: int)
  type Key = (string, string)
  type Table = map<Key, Row>

  datatype Policy = Policy(max: nat, windowMs: nat)

  const STELLAR_RELAY_GLOBAL_BUCKET: string := "stellar-relay:global"
  const STELLAR_RELAY_GLOBAL_KEY: string := "__global__"
  const STELLAR_RELAY_GLOBAL_MAX: nat := 1000
  const SPONSOR_POLICY: Policy := Policy(STELLAR_RELAY_GLOBAL_MAX, DAY_MS)

  /** The row RATE_LIMIT_UPSERT_SQL leaves behind and returns. */
  function UpsertedRow(t: Table, key: Key, windowStart: int, now: int): Row {
    if key !in t then
      Row(key.0, key.1, windowStart, 1, now)
    else
      var was := t[key];
      var newer := windowStart > was.windowStart;
      Row(
        was.bucket,
        was.ip,
        if newer then windowStart else was.windowStart,
        if newer then 1 else was.count + 1,
        Max(was.updatedAt, now)
      )
  }

  function Upsert(t: Table, key: Key, windowStart: int, now: int): Table {
    t[key := UpsertedRow(t, key, windowStart, now)]
  }

  predicate ValidCounterRow(row: Row, key: Key, windowStart: int, now: int, windowMs: nat)
    requires windowMs > 0
  {
    && SafeNat(row.windowStart)
    && SafeNat(row.count) && row.count >= 1
    && SafeNat(row.updatedAt)
    && row.bucket == key.0 && row.ip == key.1
    && (row.updatedAt == now || (row.updatedAt > now && row.count >= 2))
    && (row.windowStart == windowStart || (row.windowStart > windowStart && row.count >= 2))
    && row.windowStart % windowMs == 0
  }

  predicate ValidSponsorGlobalRow(row: Row, windowStart: int) {
    && row.bucket == STELLAR_RELAY_GLOBAL_BUCKET
    && row.ip == STELLAR_RELAY_GLOBAL_KEY
    && SafeNat(row.windowStart)
    && SafeNat(row.count) && row.count >= 1
    && SafeNat(row.updatedAt)
    && row.windowStart % DAY_MS == 0
    && (row.windowStart == windowStart || (row.windowStart > windowStart && row.count >= 2))
  }

  /** The check the handler in charge of a bucket applies to the returned row. */
  predicate RowAccepted(row: Row, key: Key, now: nat, windowMs: nat)
    requires windowMs > 0
  {
    if key.0 == STELLAR_RELAY_GLOBAL_BUCKET
    then ValidSponsorGlobalRow(row, Align(now, windowMs))
    else ValidCounterRow(row, key, Align(now, windowMs), now, windowMs)
  }

  // ---- Runs of interleaved requests ----

  /** What happens to the statement: it returns, or throws without or after taking effect. */
  datatype Fault = Returns | ThrowsBefore | ThrowsAfter

  /** One request; its statement is its only shared step, so interleaving requests orders steps. */
  datatype Request = Request(key: Key, now: int, fault: Fault)

  /** One statement that took effect, with the row it returned and the verdict on it. */
  datatype Entry = Entry(key: Key, now: nat, window: int, count: int, allowed: bool)

  datatype State = State(table: Table, log: seq<Entry>)

  /** Each bucket is used with one policy, and the sponsor bucket with one key and its own policy. */
  ghost predicate PoliciesOk(policyOf: string -> Policy) {
    && (forall b :: policyOf(b).max >= 1 && policyOf(b).windowMs >= 1)
    && policyOf(STELLAR_RELAY_GLOBAL_BUCKET) == SPONSOR_POLICY
  }

  predicate KeyOk(key: Key) {
    key.0 == STELLAR_RELAY_GLOBAL_BUCKET ==> key.1 == STELLAR_RELAY_GLOBAL_KEY
  }

  ghost function Apply(policyOf: string -> Policy, s: State, r: Request): State
    requires PoliciesOk(policyOf)
  {
    if !SafeNat(r.now) || !KeyOk(r.key) || r.fault.ThrowsBefore? then s
    else
      var policy := policyOf(r.key.0);
      var window := Align(r.now, policy.windowMs);
      var row := UpsertedRow(s.table, r.key, window, r.now);
      var allowed := r.fault.Returns? && RowAccepted(row, r.key, r.now, policy.windowMs) && row.count <= policy.max;
      State(
        Upsert(s.table, r.key, window, r.now),
        s.log + [Entry(r.key, r.now, row.windowStart, row.count, allowed)]
      )
  }

  ghost function Exec(policyOf: string -> Policy, rs: seq<Request>): State
    requires PoliciesOk(policyOf)
  {
    if rs == [] then State(map[], []) else Apply(policyOf, Exec(policyOf, rs[..|rs| - 1]), rs[|rs| - 1])
  }

  // ---- Counting the log ----

  function InWindow(key: Key, w: int): Entry -> nat {
    (e: Entry) => if e.key == key && e.window == w then 1 else 0
  }

  function AllowedInWindow(key: Key, w: int): Entry -> nat {
    (e: Entry) => if e.key == key && e.window == w && e.allowed then 1 else 0
  }

  function AllowedBetween(key: Key, from: int, until: int): Entry -> nat {
    (e: Entry) => if e.key == key && from <= e.now < until && e.allowed then 1 else 0
  }

  // ---- The inductive invariant ----

  predicate RowOk(row: Row, key: Key, windowMs: nat)
    requires windowMs > 0
  {
    && row.bucket == key.0 && row.ip == key.1
    && KeyOk(key)
    && row.count >= 1
    && SafeNat(row.updatedAt)
    && row.windowStart == Align(row.updatedAt, windowMs)
  }

  ghost predicate RowsOk(policyOf: string -> Policy, t: Table)
    requires PoliciesOk(policyOf)
  {
    forall key :: key in t ==> RowOk(t[key], key, policyOf(key.0).windowMs)
  }

  predicate Counted(t: Table, log: seq<Entry>, key: Key, w: int) {
    && (key in t && w == t[key].windowStart ==> t[key].count == Sum(log, InWindow(key, w)))
    && (key !in t || w > t[key].windowStart ==> Sum(log, InWindow(key, w)) == 0)
  }

  predicate Capped(log: seq<Entry>, key: Key, w: int, max: nat) {
    Sum(log, AllowedInWindow(key, w)) <= Min(max, Sum(log, InWindow(key, w)))
  }

  ghost predicate Inv(policyOf: string -> Policy, s: State)
    requires PoliciesOk(policyOf)
  {
    && RowsOk(policyOf, s.table)
    && (forall key: Key, w: int :: Counted(s.table, s.log, key, w))
    && (forall key: Key, w: int :: Capped(s.log, key, w, policyOf(key.0).max))
  }

  /** The new row keeps window_start aligned under updated_at. */
  lemma {:induction false} UpsertKeepsRow(t: Table, key: Key, now: nat, windowMs: nat)
    requires windowMs > 0 && SafeNat(now) && KeyOk(key)
    requires key in t ==> RowOk(t[key], key, windowMs)
    ensures RowOk(UpsertedRow(t, key, Align(now, windowMs), now), key, windowMs)
    ensures UpsertedRow(t, key, Align(now, windowMs), now).windowStart >= Align(now, windowMs)
  {
    if key in t {
      if t[key].updatedAt <= now {
        AlignMonotone(t[key].updatedAt, now, windowMs);
      } else {
        AlignMonotone(now, t[key].updatedAt, windowMs);
      }
    }
  }

  lemma {:induction false} ApplyKeepsInv(policyOf: string -> Policy, s: State, r: Request)
    requires PoliciesOk(policyOf) && Inv(policyOf, s)
    ensures Inv(policyOf, Apply(policyOf, s, r))
  {
    var s' := Apply(policyOf, s, r);
    if s' != s {
      var policy := policyOf(r.key.0);
      UpsertKeepsRow(s.table, r.key, r.now, policy.windowMs);
      var e := s'.log[|s.log|];
      forall key: Key, w: int
        ensures Counted(s'.table, s'.log, key, w) && Capped(s'.log, key, w, policyOf(key.0).max)
      {
        SumAppend(s.log, e, InWindow(key, w));
        SumAppend(s.log, e, AllowedInWindow(key, w));
        assert Counted(s.table, s.log, key, w);
        assert Capped(s.log, key, w, policyOf(key.0).max);
      }
    }
  }

  lemma {:induction false} ReachableInv(policyOf: string -> Policy, rs: seq<Request>)
    requires PoliciesOk(policyOf)
    ensures Inv(policyOf, Exec(policyOf, rs))
  {
    if rs != [] {
      ReachableInv(policyOf, rs[..|rs| - 1]);
      ApplyKeepsInv(policyOf, Exec(policyOf, rs[..|rs| - 1]), rs[|rs| - 1]);
    }
  }

  // ---- Main results: the validators ----

  /** Whatever the clocks did, both validators accept every row the upsert can return. */
  lemma {:induction false} ValidatorsAreComplete(policyOf: string -> Policy, rs: seq<Request>, key: Key, now: nat)
    requires PoliciesOk(policyOf) && SafeNat(now) && KeyOk(key)
    ensures var windowMs := policyOf(key.0).windowMs;
            var row := UpsertedRow(Exec(policyOf, rs).table, key, Align(now, windowMs), now);
            && (RowAccepted(row, key, now, windowMs) <==> row.count <= MAX_SAFE_INTEGER)
            && (ValidCounterRow(row, key, Align(now, windowMs), now, windowMs) <==> row.count <= MAX_SAFE_INTEGER)
  {
    ReachableInv(policyOf, rs);
    var t := Exec(policyOf, rs).table;
    UpsertKeepsRow(t, key, now, policyOf(key.0).windowMs);
    if key in t && now < t[key].updatedAt {
      AlignMonotone(now, t[key].updatedAt, policyOf(key.0).windowMs);
    }
  }

  /** n requests of one client at one instant. */
  function Burst(key: Key, at: int, n: nat): seq<Request> {
    if n == 0 then [] else Burst(key, at, n - 1) + [Request(key, at, Returns)]
  }

  lemma {:induction false} BurstStep(t: Table, key: Key, at: int, n: nat, window: int)
    requires n > 0
    requires if n == 1 then t == map[] else t == map[key := Row(key.0, key.1, window, n - 1, at)]
    ensures Upsert(t, key, window, at) == map[key := Row(key.0, key.1, window, n, at)]
  {
  }

  lemma {:induction false} BurstRow(policyOf: string -> Policy, key: Key, at: nat, n: nat)
    requires PoliciesOk(policyOf) && SafeNat(at) && KeyOk(key)
    ensures var t := Exec(policyOf, Burst(key, at, n)).table;
            if n == 0 then t == map[]
            else t == map[key := Row(key.0, key.1, Align(at, policyOf(key.0).windowMs), n, at)]
  {
    if n > 0 {
      BurstRow(policyOf, key, at, n - 1);
      var rs := Burst(key, at, n);
      assert rs[..|rs| - 1] == Burst(key, at, n - 1) && rs[|rs| - 1] == Request(key, at, Returns);
      var s := Exec(policyOf, Burst(key, at, n - 1));
      var window := Align(at, policyOf(key.0).windowMs);
      assert Exec(policyOf, rs) == Apply(policyOf, s, Request(key, at, Returns));
      assert Apply(policyOf, s, Request(key, at, Returns)).table == Upsert(s.table, key, window, at);
      BurstStep(s.table, key, at, n, window);
    }
  }

  /** Some run makes the upsert of this request return this row. */
  ghost predicate Returnable(policyOf: string -> Policy, row: Row, key: Key, now: nat)
    requires PoliciesOk(policyOf)
  {
    exists rs: seq<Request> ::
      UpsertedRow(Exec(policyOf, rs).table, key, Align(now, policyOf(key.0).windowMs), now) == row
  }

  /**
   * Exactness: among rows with a safe count, the ones some run can return are precisely those the
   * validator accepts whose window is also the aligned window of updated_at.
   */
  lemma {:induction false} ValidatorIsExactUpToAlignment(policyOf: string -> Policy, row: Row, key: Key, now: nat)
    requires PoliciesOk(policyOf) && SafeNat(now) && KeyOk(key) && row.count <= MAX_SAFE_INTEGER
    ensures var windowMs := policyOf(key.0).windowMs;
            Returnable(policyOf, row, key, now) <==>
              && ValidCounterRow(row, key, Align(now, windowMs), now, windowMs)
              && row.windowStart == Align(row.updatedAt, windowMs)
  {
    var windowMs := policyOf(key.0).windowMs;
    if Returnable(policyOf, row, key, now) {
      var rs: seq<Request> :| UpsertedRow(Exec(policyOf, rs).table, key, Align(now, windowMs), now) == row;
      ReachableInv(policyOf, rs);
      UpsertKeepsRow(Exec(policyOf, rs).table, key, now, windowMs);
      ValidatorsAreComplete(policyOf, rs, key, now);
    }
    if && ValidCounterRow(row, key, Align(now, windowMs), now, windowMs)
       && row.windowStart == Align(row.updatedAt, windowMs) {
      BurstRow(policyOf, key, row.updatedAt, row.count - 1);
      AlignMonotone(now, row.updatedAt, windowMs);
      var t := Exec(policyOf, Burst(key, row.updatedAt, row.count - 1)).table;
      assert UpsertedRow(t, key, Align(now, windowMs), now) == row;
    }
  }

  // ---- Main results: counts and caps ----

  /** In every run the stored count is the number of upserts that landed in the row's window. */
  lemma {:induction false} CountIsExact(policyOf: string -> Policy, rs: seq<Request>, key: Key)
    requires PoliciesOk(policyOf) && key in Exec(policyOf, rs).table
    ensures var s := Exec(policyOf, rs);
            s.table[key].count == Sum(s.log, InWindow(key, s.table[key].windowStart))
  {
    ReachableInv(policyOf, rs);
    var s := Exec(policyOf, rs);
    assert Counted(s.table, s.log, key, s.table[key].windowStart);
  }

  /** In every run at most max requests of one bucket, client and aligned window are allowed. */
  lemma {:induction false} AllowedPerWindow(policyOf: string -> Policy, rs: seq<Request>, key: Key, w: int)
    requires PoliciesOk(policyOf)
    ensures Sum(Exec(policyOf, rs).log, AllowedInWindow(key, w)) <= policyOf(key.0).max
  {
    ReachableInv(policyOf, rs);
    assert Capped(Exec(policyOf, rs).log, key, w, policyOf(key.0).max);
  }

  lemma {:induction false} LogIsShort(policyOf: string -> Policy, rs: seq<Request>, key: Key, w: int)
    requires PoliciesOk(policyOf)
    ensures Sum(Exec(policyOf, rs).log, InWindow(key, w)) <= |Exec(policyOf, rs).log| <= |rs|
  {
    if rs != [] {
      var s := Exec(policyOf, rs[..|rs| - 1]);
      LogIsShort(policyOf, rs[..|rs| - 1], key, w);
      if Exec(policyOf, rs) != s {
        SumAppend(s.log, Exec(policyOf, rs).log[|s.log|], InWindow(key, w));
      }
    }
  }

  /** The limiter is not too strict either: when no statement throws, the first max of a window all pass. */
  lemma {:induction false} AllowedIsExact(policyOf: string -> Policy, rs: seq<Request>, key: Key, w: int)
    requires PoliciesOk(policyOf) && |rs| <= MAX_SAFE_INTEGER
    requires forall i :: 0 <= i < |rs| ==> rs[i].fault.Returns?
    ensures var log := Exec(policyOf, rs).log;
            Sum(log, AllowedInWindow(key, w)) == Min(policyOf(key.0).max, Sum(log, InWindow(key, w)))
  {
    if rs != [] {
      var before, r := rs[..|rs| - 1], rs[|rs| - 1];
      var s, s' := Exec(policyOf, before), Exec(policyOf, rs);
      AllowedIsExact(policyOf, before, key, w);
      if s' != s {
        var e := s'.log[|s.log|];
        SumAppend(s.log, e, InWindow(key, w));
        SumAppend(s.log, e, AllowedInWindow(key, w));
        ReachableInv(policyOf, rs);
        assert Counted(s'.table, s'.log, r.key, e.window);
        LogIsShort(policyOf, rs, r.key, e.window);
        ValidatorsAreComplete(policyOf, before, r.key, r.now);
      }
    }
  }

  // ---- Main results: Retry-After ----

  /**
   * A client that waits s seconds after a denial, with nobody else touching its row, gets count 1
   * exactly when s is at least the Retry-After it was given.
   */
  lemma {:induction false} WaitingGetsAFreshCount(t: Table, key: Key, now: nat, windowMs: nat, s: nat)
    requires windowMs > 0 && key in t && t[key].count >= 1
    requires SafeNat(t[key].windowStart) && t[key].windowStart % windowMs == 0
    requires Align(now, windowMs) <= t[key].windowStart
    ensures UpsertedRow(t, key, Align(now + 1000 * s, windowMs), now + 1000 * s).count == 1
       <==> s >= RetryAfter(t[key].windowStart + windowMs, now)
  {
    RetryAfterIsLeastDelay(t[key].windowStart, windowMs, now, s);
  }

  // ---- The limiter as it updates the table ----

  /** String(options.bucket || 'default'). */
  function BucketName(bucket: string): string {
    if bucket == "" then "default" else bucket
  }

  /** Different bucket names never share a row, save the empty one and "default". */
  lemma {:induction false} BucketsAreSeparate(a: string, b: string)
    ensures BucketName(a) == BucketName(b) <==> a == b || (a == "" && b == "default") || (a == "default" && b == "")
  {
  }

  predicate OptionsOk(max: int, windowMs: int, bucket: string) {
    SafeNat(max) && max >= 1 && SafeNat(windowMs) && windowMs >= 1 && |BucketName(bucket)| <= 256
  }

  datatype Verdict = Allowed | TooMany(retryAfter: nat) | Unavailable

  class Counters {
    var rows: Table

    constructor ()
      ensures rows == map[]
    {
      rows := map[];
    }

    /**
     * durableRateLimit with a binding present: client None is an unusable address, and the fault
     * says how the statement fares. Every path that cannot prove the count fails closed.
     */
    method DurableRateLimit(client: Option<string>, bucket: string, max: int, windowMs: int, now: int, fault: Fault)
        returns (verdict: Verdict)
      modifies this
      ensures client.None? || !(1 <= max <= MAX_SAFE_INTEGER) || !(1 <= windowMs <= MAX_SAFE_INTEGER)
              || |bucket| > 256 || !SafeNat(now) || fault.ThrowsBefore?
              ==> verdict == Unavailable && rows == old(rows)
      ensures && client.Some? && 1 <= max <= MAX_SAFE_INTEGER && 1 <= windowMs <= MAX_SAFE_INTEGER
              && |bucket| <= 256 && SafeNat(now) && !fault.ThrowsBefore?
              ==> var key := (if bucket == "" then "default" else bucket, client.value);
                  && rows == Upsert(old(rows), key, Align(now, windowMs), now)
                  && (verdict == Unavailable <==>
                        fault.ThrowsAfter? || !ValidCounterRow(rows[key], key, Align(now, windowMs), now, windowMs))
                  && (verdict == Allowed ==> rows[key].count <= max)
                  && (verdict.TooMany? ==>
                        && rows[key].count > max
                        && forall s: nat :: Align(now + 1000 * s, windowMs) > rows[key].windowStart
                                       <==> s >= verdict.retryAfter)
    {
      if !OptionsOk(max, windowMs, bucket) {
        return Unavailable;
      }
      if client.None? || !SafeNat(now) || fault.ThrowsBefore? {
        return Unavailable;
      }
      var key := (BucketName(bucket), client.value);
      var windowStart := Align(now, windowMs);
      rows := Upsert(rows, key, windowStart, now);
      var row := rows[key];
      if fault.ThrowsAfter? || !ValidCounterRow(row, key, windowStart, now, windowMs) {
        return Unavailable;
      }
      if row.count > max {
        verdict := TooMany(RetryAfter(row.windowStart + windowMs, now));
        forall s: nat
          ensures Align(now + 1000 * s, windowMs) > row.windowStart <==> s >= verdict.retryAfter
        {
          RetryAfterIsLeastDelay(row.windowStart, windowMs, now, s);
        }
        return;
      }
      return Allowed;
    }

    /**
     * checkSponsorGlobalLimit with a binding present. Both a spent budget and an unproved count are
     * refused; the delay of the former is the least one that leaves the counted window.
     */
    method CheckSponsorGlobalLimit(now: int, fault: Fault) returns (verdict: Verdict)
      modifies this
      ensures !SafeNat(now) || fault.ThrowsBefore? ==> verdict == Unavailable && rows == old(rows)
      ensures SafeNat(now) && !fault.ThrowsBefore?
              ==> var key := (STELLAR_RELAY_GLOBAL_BUCKET, STELLAR_RELAY_GLOBAL_KEY);
                  && rows == Upsert(old(rows), key, Align(now, DAY_MS), now)
                  && (verdict == Unavailable <==>
                        fault.ThrowsAfter? || !ValidSponsorGlobalRow(rows[key], Align(now, DAY_MS)))
                  && (verdict == Allowed ==> rows[key].count <= STELLAR_RELAY_GLOBAL_MAX)
                  && (verdict.TooMany? ==>
                        && rows[key].count > STELLAR_RELAY_GLOBAL_MAX
                        && forall s: nat :: Align(now + 1000 * s, DAY_MS) > rows[key].windowStart
                                       <==> s >= verdict.retryAfter)
    {
      if !SafeNat(now) || fault.ThrowsBefore? {
        return Unavailable;
      }
      var key := (STELLAR_RELAY_GLOBAL_BUCKET, STELLAR_RELAY_GLOBAL_KEY);
      var windowStart := Align(now, DAY_MS);
      rows := Upsert(rows, key, windowStart, now);
      var row := rows[key];
      if fault.ThrowsAfter? || !ValidSponsorGlobalRow(row, windowStart) {
        return Unavailable;
      }
      if row.count > STELLAR_RELAY_GLOBAL_MAX {
        verdict := TooMany(RetryAfter(row.windowStart + DAY_MS, now));
        forall s: nat
          ensures Align(now + 1000 * s, DAY_MS) > row.windowStart <==> s >= verdict.retryAfter
        {
          RetryAfterIsLeastDelay(row.windowStart, DAY_MS, now, s);
        }
        return;
      }
      return Allowed;
    }
  }
}
