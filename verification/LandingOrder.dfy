/**
 * How many requests a fixed-window counter lets through in any interval of one window's length. A
 * caller reads its clock before its upsert lands, so on a perfect clock racing statements may land
 * out of order; what counts is how far, and whether the windows of their readings ever fall.
 */
module LandingOrder {
  import opened Basics
  import opened Windows
  import opened CounterTable

  function AllowedBetween(key: Key, from: int, until: int): Entry -> nat {
    (e: Entry) => if e.key == key && from <= e.now < until && e.allowed then 1 else 0
  }

  /** Allowed in a window that an earlier statement had opened. */
  function AllowedAgain(key: Key, w: int): Entry -> nat {
    (e: Entry) => if e.key == key && e.window == w && e.allowed && e.count >= 2 then 1 else 0
  }

  /** In landing order, the aligned windows of this key's readings never fall. */
  ghost predicate WindowsInOrder(log: seq<Entry>, key: Key, width: nat)
    requires width > 0
  {
    forall i, j :: 0 <= i < j < |log| && log[i].key == key && log[j].key == key
      ==> Align(log[i].now, width) <= Align(log[j].now, width)
  }

  ghost predicate CountedInOwnWindows(log: seq<Entry>, key: Key, width: nat)
    requires width > 0
  {
    forall n :: 0 <= n < |log| && log[n].key == key ==> log[n].window == Align(log[n].now, width)
  }

  /** This key's readings land at most so many milliseconds out of order. */
  ghost predicate LandsWithin(log: seq<Entry>, key: Key, skew: nat) {
    forall i, j :: 0 <= i < j < |log| && log[i].key == key && log[j].key == key
      ==> log[i].now <= log[j].now + skew
  }

  // ---- The window an entry is counted in is the newest window read so far ----

  predicate ReadAt(log: seq<Entry>, key: Key, width: nat, i: nat, w: int)
    requires width > 0
  {
    i < |log| && log[i].key == key && Align(log[i].now, width) == w
  }

  /** w is the newest aligned window among this key's first n readings. */
  ghost predicate Newest(log: seq<Entry>, key: Key, width: nat, n: nat, w: int)
    requires width > 0 && n <= |log|
  {
    && (forall i :: 0 <= i < n && log[i].key == key ==> Align(log[i].now, width) <= w)
    && (exists i :: 0 <= i < n && ReadAt(log, key, width, i, w))
  }

  ghost predicate EntryOk(log: seq<Entry>, key: Key, width: nat, n: nat)
    requires width > 0 && n < |log|
  {
    log[n].key == key ==>
      && Newest(log, key, width, n + 1, log[n].window)
      && (log[n].count >= 2 || log[n].window == Align(log[n].now, width))
  }

  ghost predicate Landed(s: State, key: Key, width: nat)
    requires width > 0
  {
    && (forall n :: 0 <= n < |s.log| ==> EntryOk(s.log, key, width, n))
    && (if key in s.table then Newest(s.log, key, width, |s.log|, s.table[key].windowStart)
        else forall n :: 0 <= n < |s.log| ==> s.log[n].key != key)
  }

  lemma {:induction false} NewestStays(log: seq<Entry>, e: Entry, key: Key, width: nat, n: nat, w: int)
    requires width > 0 && n <= |log| && Newest(log, key, width, n, w)
    ensures Newest(log + [e], key, width, n, w)
    ensures n == |log| && e.key != key ==> Newest(log + [e], key, width, n + 1, w)
    ensures n == |log| && e.key == key
            ==> Newest(log + [e], key, width, n + 1, Max(w, Align(e.now, width)))
  {
    var i :| 0 <= i < n && ReadAt(log, key, width, i, w);
    assert ReadAt(log + [e], key, width, i, w);
    assert e.key == key ==> ReadAt(log + [e], key, width, |log|, Align(e.now, width));
  }

  lemma {:induction false} EntryStaysOk(log: seq<Entry>, e: Entry, key: Key, width: nat, n: nat)
    requires width > 0 && n < |log| && EntryOk(log, key, width, n)
    ensures EntryOk(log + [e], key, width, n)
  {
    if log[n].key == key {
      NewestStays(log, e, key, width, n + 1, log[n].window);
    }
  }

  /** The entry of one more statement of this key. */
  lemma {:induction false} LandsNewest(policyOf: string -> Policy, s: State, r: Request, key: Key)
    requires PoliciesOk(policyOf) && Inv(policyOf, s) && Landed(s, key, policyOf(key.0).windowMs)
    requires Apply(policyOf, s, r) != s
    ensures var s' := Apply(policyOf, s, r);
            var width := policyOf(key.0).windowMs;
            && s'.log == s.log + [s'.log[|s.log|]]
            && EntryOk(s'.log, key, width, |s.log|)
            && (key in s'.table ==> Newest(s'.log, key, width, |s'.log|, s'.table[key].windowStart))
            && (key !in s'.table ==> s'.log[|s.log|].key != key && key !in s.table)
  {
    var s' := Apply(policyOf, s, r);
    var width := policyOf(key.0).windowMs;
    var e := s'.log[|s.log|];
    if key in s.table {
      NewestStays(s.log, e, key, width, |s.log|, s.table[key].windowStart);
    } else if e.key == key {
      assert ReadAt(s'.log, key, width, |s.log|, Align(e.now, width));
    }
  }

  lemma {:induction false} ReachableLanded(policyOf: string -> Policy, rs: seq<Request>, key: Key)
    requires PoliciesOk(policyOf)
    ensures Landed(Exec(policyOf, rs), key, policyOf(key.0).windowMs)
  {
    if rs != [] {
      var s, r := Exec(policyOf, rs[..|rs| - 1]), rs[|rs| - 1];
      ReachableLanded(policyOf, rs[..|rs| - 1], key);
      if Exec(policyOf, rs) != s {
        var width := policyOf(key.0).windowMs;
        ReachableInv(policyOf, rs[..|rs| - 1]);
        LandsNewest(policyOf, s, r, key);
        var log' := Exec(policyOf, rs).log;
        forall n | 0 <= n < |log'| ensures EntryOk(log', key, width, n) {
          if n < |s.log| {
            EntryStaysOk(s.log, log'[|s.log|], key, width, n);
          }
        }
      }
    }
  }

  // ---- Main results: in window order ----

  /**
   * The exact condition: all requests of a key are counted in their own aligned window if and only
   * if the windows of their readings never fall in landing order.
   */
  lemma {:induction false} OwnWindowsExactly(policyOf: string -> Policy, rs: seq<Request>, key: Key)
    requires PoliciesOk(policyOf)
    ensures var log := Exec(policyOf, rs).log;
            var width := policyOf(key.0).windowMs;
            CountedInOwnWindows(log, key, width) <==> WindowsInOrder(log, key, width)
  {
    ReachableLanded(policyOf, rs, key);
    var log := Exec(policyOf, rs).log;
    var width := policyOf(key.0).windowMs;
    assert forall n :: 0 <= n < |log| ==> EntryOk(log, key, width, n);
    if WindowsInOrder(log, key, width) {
      forall n | 0 <= n < |log| && log[n].key == key ensures log[n].window == Align(log[n].now, width) {
        assert EntryOk(log, key, width, n);
        var i :| 0 <= i < n + 1 && ReadAt(log, key, width, i, log[n].window);
        assert i < n ==> Align(log[i].now, width) <= Align(log[n].now, width);
      }
    }
    if CountedInOwnWindows(log, key, width) {
      forall i, j | 0 <= i < j < |log| && log[i].key == key && log[j].key == key
        ensures Align(log[i].now, width) <= Align(log[j].now, width)
      {
        assert EntryOk(log, key, width, j);
      }
    }
  }

  /** The two aligned windows that an interval of one width can touch. */
  lemma {:induction false} TwoWindows(from: nat, width: nat, now: nat)
    requires width > 0 && from <= now < from + width
    ensures Align(now, width) == Align(from, width) || Align(now, width) == Align(from, width) + width
  {
    var w0 := Align(from, width);
    NextMultiple(w0, width);
    if now < w0 + width {
      AlignUnique(now, width, w0);
    } else {
      AlignUnique(now, width, w0 + width);
    }
  }

  /** Whatever reads in the interval is counted in one of these two windows. */
  ghost predicate CountedInTwo(log: seq<Entry>, key: Key, from: nat, width: nat, w0: int) {
    forall i :: 0 <= i < |log| && log[i].key == key && from <= log[i].now < from + width
      ==> log[i].window == w0 || log[i].window == w0 + width
  }

  lemma {:induction false} AllowedInTwo(policyOf: string -> Policy, rs: seq<Request>, key: Key, from: nat, w0: int)
    requires PoliciesOk(policyOf)
    requires CountedInTwo(Exec(policyOf, rs).log, key, from, policyOf(key.0).windowMs, w0)
    ensures var policy := policyOf(key.0);
            Sum(Exec(policyOf, rs).log, AllowedBetween(key, from, from + policy.windowMs)) <= 2 * policy.max
  {
    var log := Exec(policyOf, rs).log;
    var width := policyOf(key.0).windowMs;
    var f := AllowedBetween(key, from, from + width);
    var g0, g1 := AllowedInWindow(key, w0), AllowedInWindow(key, w0 + width);
    forall n | 0 <= n < |log| ensures f(log[n]) <= g0(log[n]) + g1(log[n]) {
      if f(log[n]) == 1 {
        assert log[n].key == key && from <= log[n].now < from + width;
      }
    }
    SumOfTwo(log, f, g0, g1);
    AllowedPerWindow(policyOf, rs, key, w0);
    AllowedPerWindow(policyOf, rs, key, w0 + width);
  }

  /** When statements land in window order, any half-open interval of one width sees at most 2 * max. */
  lemma {:induction false} AllowedPerSlidingInterval(policyOf: string -> Policy, rs: seq<Request>, key: Key, from: nat)
    requires PoliciesOk(policyOf)
    requires WindowsInOrder(Exec(policyOf, rs).log, key, policyOf(key.0).windowMs)
    ensures var policy := policyOf(key.0);
            Sum(Exec(policyOf, rs).log, AllowedBetween(key, from, from + policy.windowMs)) <= 2 * policy.max
  {
    var log := Exec(policyOf, rs).log;
    var width := policyOf(key.0).windowMs;
    var w0 := Align(from, width);
    OwnWindowsExactly(policyOf, rs, key);
    forall i | 0 <= i < |log| && log[i].key == key && from <= log[i].now < from + width
      ensures log[i].window == w0 || log[i].window == w0 + width
    {
      TwoWindows(from, width, log[i].now);
    }
    AllowedInTwo(policyOf, rs, key, from, w0);
  }

  const SPONSOR_KEY: Key := (STELLAR_RELAY_GLOBAL_BUCKET, STELLAR_RELAY_GLOBAL_KEY)

  /** The treasury bound: when submits land in day order, at most 2000 are sponsored in any 24 hours. */
  lemma {:induction false} SponsoredPerAnyDay(policyOf: string -> Policy, rs: seq<Request>, from: nat)
    requires PoliciesOk(policyOf) && WindowsInOrder(Exec(policyOf, rs).log, SPONSOR_KEY, DAY_MS)
    ensures Sum(Exec(policyOf, rs).log, AllowedBetween(SPONSOR_KEY, from, from + DAY_MS)) <= 2000
  {
    AllowedPerSlidingInterval(policyOf, rs, SPONSOR_KEY, from);
  }

  // ---- Main results: out of order ----

  /** A window that is already open lets through one less than max. */
  lemma {:induction false} AllowedAgainPerWindow(policyOf: string -> Policy, rs: seq<Request>, key: Key, w: int)
    requires PoliciesOk(policyOf)
    ensures var log := Exec(policyOf, rs).log;
            && Sum(log, AllowedAgain(key, w)) < policyOf(key.0).max
            && (Sum(log, AllowedAgain(key, w)) == 0 || Sum(log, AllowedAgain(key, w)) < Sum(log, InWindow(key, w)))
  {
    if rs != [] {
      var s := Exec(policyOf, rs[..|rs| - 1]);
      var s' := Exec(policyOf, rs);
      AllowedAgainPerWindow(policyOf, rs[..|rs| - 1], key, w);
      if s' != s {
        var e := s'.log[|s.log|];
        SumAppend(s.log, e, InWindow(key, w));
        SumAppend(s.log, e, AllowedAgain(key, w));
        ReachableInv(policyOf, rs);
        assert Counted(s'.table, s'.log, key, w);
      }
    }
  }

  lemma {:induction false} AlignShift(t: nat, width: nat)
    requires width > 0
    ensures Align(t + width, width) == Align(t, width) + width
  {
    NextMultiple(Align(t, width), width);
    AlignUnique(t + width, width, Align(t, width) + width);
  }

  /** Counted in its own window or in the next, where it is not the first. */
  lemma {:induction false} AtMostOneWindowLate(
      policyOf: string -> Policy, rs: seq<Request>, key: Key, skew: nat, n: nat) returns (i: nat)
    requires PoliciesOk(policyOf) && skew <= policyOf(key.0).windowMs
    requires LandsWithin(Exec(policyOf, rs).log, key, skew)
    requires n < |Exec(policyOf, rs).log| && Exec(policyOf, rs).log[n].key == key
    ensures var log := Exec(policyOf, rs).log;
            var width := policyOf(key.0).windowMs;
            var own := Align(log[n].now, width);
            && (log[n].window == own || (log[n].window == own + width && log[n].count >= 2))
            && i < |log| && log[n].window <= log[i].now <= log[n].now + skew
  {
    ReachableLanded(policyOf, rs, key);
    var log := Exec(policyOf, rs).log;
    var width := policyOf(key.0).windowMs;
    assert EntryOk(log, key, width, n);
    i :| 0 <= i < n + 1 && ReadAt(log, key, width, i, log[n].window);
    assert log[i].now <= log[n].now + skew;
    AlignMonotone(log[i].now, log[n].now + width, width);
    AlignShift(log[n].now, width);
    var own := Align(log[n].now, width);
    if own < log[n].window {
      MultiplesApart(own, log[n].window, width);
    }
  }

  /** A request of the interval is counted in one of three windows, and in the last only behind its opener. */
  lemma {:induction false} InOneOfThree(policyOf: string -> Policy, rs: seq<Request>, key: Key, from: nat, n: nat)
    requires PoliciesOk(policyOf)
    requires LandsWithin(Exec(policyOf, rs).log, key, policyOf(key.0).windowMs)
    requires var log := Exec(policyOf, rs).log;
             n < |log| && log[n].key == key && from <= log[n].now < from + policyOf(key.0).windowMs
    ensures var e := Exec(policyOf, rs).log[n];
            var width := policyOf(key.0).windowMs;
            var w0 := Align(from, width);
            e.window == w0 || e.window == w0 + width || (e.window == w0 + 2 * width && e.count >= 2)
  {
    var _ := AtMostOneWindowLate(policyOf, rs, key, policyOf(key.0).windowMs, n);
    TwoWindows(from, policyOf(key.0).windowMs, Exec(policyOf, rs).log[n].now);
  }

  /** Whatever reads in the interval is counted in one of these three windows, in the last one not as its first. */
  ghost predicate CountedInThree(log: seq<Entry>, key: Key, from: nat, width: nat, w0: int) {
    forall n :: 0 <= n < |log| && log[n].key == key && from <= log[n].now < from + width
      ==> || log[n].window == w0 || log[n].window == w0 + width
          || (log[n].window == w0 + 2 * width && log[n].count >= 2)
  }

  /** Allowed in w1, or in w2 behind its opener. */
  function AllowedLate(key: Key, w1: int, w2: int): Entry -> nat {
    (e: Entry) =>
      if e.key == key && e.allowed && (e.window == w1 || (e.window == w2 && e.count >= 2)) then 1 else 0
  }

  lemma {:induction false} AllowedInThree(policyOf: string -> Policy, rs: seq<Request>, key: Key, from: nat, w0: int)
    requires PoliciesOk(policyOf)
    requires CountedInThree(Exec(policyOf, rs).log, key, from, policyOf(key.0).windowMs, w0)
    ensures var policy := policyOf(key.0);
            Sum(Exec(policyOf, rs).log, AllowedBetween(key, from, from + policy.windowMs)) <= 3 * policy.max - 1
  {
    var log := Exec(policyOf, rs).log;
    var width := policyOf(key.0).windowMs;
    var w1, w2 := w0 + width, w0 + 2 * width;
    var f := AllowedBetween(key, from, from + width);
    var g, late := AllowedInWindow(key, w0), AllowedLate(key, w1, w2);
    forall n | 0 <= n < |log| ensures f(log[n]) <= g(log[n]) + late(log[n]) {
      if f(log[n]) == 1 {
        assert log[n].key == key && from <= log[n].now < from + width;
      }
    }
    SumOfTwo(log, f, g, late);
    SumOfTwo(log, late, AllowedInWindow(key, w1), AllowedAgain(key, w2));
    AllowedPerWindow(policyOf, rs, key, w0);
    AllowedPerWindow(policyOf, rs, key, w1);
    AllowedAgainPerWindow(policyOf, rs, key, w2);
  }

  /** When statements land at most one width out of order, any interval of one width sees less than 3 * max. */
  lemma {:induction false} AllowedOutOfOrder(policyOf: string -> Policy, rs: seq<Request>, key: Key, from: nat)
    requires PoliciesOk(policyOf)
    requires LandsWithin(Exec(policyOf, rs).log, key, policyOf(key.0).windowMs)
    ensures var policy := policyOf(key.0);
            Sum(Exec(policyOf, rs).log, AllowedBetween(key, from, from + policy.windowMs)) <= 3 * policy.max - 1
  {
    var log := Exec(policyOf, rs).log;
    var width := policyOf(key.0).windowMs;
    forall n | 0 <= n < |log| && log[n].key == key && from <= log[n].now < from + width
      ensures var w0 := Align(from, width);
              || log[n].window == w0 || log[n].window == w0 + width
              || (log[n].window == w0 + 2 * width && log[n].count >= 2)
    {
      InOneOfThree(policyOf, rs, key, from, n);
    }
    AllowedInThree(policyOf, rs, key, from, Align(from, width));
  }

  /** Landing one millisecond out of order does no harm yet. */
  lemma {:induction false} AllowedWithinOneMs(
      policyOf: string -> Policy, rs: seq<Request>, key: Key, skew: nat, from: nat)
    requires PoliciesOk(policyOf) && skew <= 1 && LandsWithin(Exec(policyOf, rs).log, key, skew)
    ensures var policy := policyOf(key.0);
            Sum(Exec(policyOf, rs).log, AllowedBetween(key, from, from + policy.windowMs)) <= 2 * policy.max
  {
    var log := Exec(policyOf, rs).log;
    var width := policyOf(key.0).windowMs;
    var w0 := Align(from, width);
    forall n | 0 <= n < |log| && log[n].key == key && from <= log[n].now < from + width
      ensures log[n].window == w0 || log[n].window == w0 + width
    {
      var i := AtMostOneWindowLate(policyOf, rs, key, skew, n);
      TwoWindows(from, width, log[n].now);
    }
    AllowedInTwo(policyOf, rs, key, from, w0);
  }

  // ---- Two milliseconds out of order already reach that bound ----

  /** The key's row, the requests allowed in the interval so far, and the highest reading. */
  ghost predicate Traced(
      policyOf: string -> Policy, rs: seq<Request>, key: Key, until: nat, window: nat, count: nat, sum: nat, high: nat)
    requires PoliciesOk(policyOf)
  {
    var s := Exec(policyOf, rs);
    && key in s.table && s.table[key].windowStart == window && s.table[key].count == count
    && Sum(s.log, AllowedBetween(key, policyOf(key.0).windowMs - 1, until)) == sum
    && (forall i :: 0 <= i < |s.log| ==> s.log[i].now <= high)
    && LandsWithin(s.log, key, 2)
  }

  function Counts(now: nat, from: int, until: int): nat {
    if from <= now < until then 1 else 0
  }

  lemma {:induction false} TraceOneMore(policyOf: string -> Policy, rs: seq<Request>, key: Key, now: nat, high: nat)
    requires PoliciesOk(policyOf) && KeyOk(key) && SafeNat(now) && high <= now + 2
    requires var s := Exec(policyOf, rs);
             && (forall i :: 0 <= i < |s.log| ==> s.log[i].now <= high)
             && LandsWithin(s.log, key, 2)
    requires UpsertedRow(Exec(policyOf, rs).table, key, Align(now, policyOf(key.0).windowMs), now).count
             <= Min(policyOf(key.0).max, MAX_SAFE_INTEGER)
    ensures var s := Exec(policyOf, rs);
            var width := policyOf(key.0).windowMs;
            var row := UpsertedRow(s.table, key, Align(now, width), now);
            var s' := Exec(policyOf, rs + [Request(key, now, Returns)]);
            && s'.table == Upsert(s.table, key, Align(now, width), now)
            && s'.log == s.log + [Entry(key, now, row.windowStart, row.count, true)]
            && (forall i :: 0 <= i < |s'.log| ==> s'.log[i].now <= Max(high, now))
            && LandsWithin(s'.log, key, 2)
            && forall from, until :: Sum(s'.log, AllowedBetween(key, from, until))
                                  == Sum(s.log, AllowedBetween(key, from, until)) + Counts(now, from, until)
  {
    var s := Exec(policyOf, rs);
    var r := Request(key, now, Returns);
    assert (rs + [r])[..|rs|] == rs;
    ValidatorsAreComplete(policyOf, rs, key, now);
    var e := Exec(policyOf, rs + [r]).log[|s.log|];
    forall from, until
      ensures Sum(s.log + [e], AllowedBetween(key, from, until))
           == Sum(s.log, AllowedBetween(key, from, until)) + Counts(now, from, until)
    {
      SumAppend(s.log, e, AllowedBetween(key, from, until));
    }
  }

  /** One more request that joins the open window. */
  lemma {:induction false} TraceJoin(
      policyOf: string -> Policy, rs: seq<Request>, key: Key, now: nat,
      until: nat, window: nat, count: nat, sum: nat, high: nat)
    requires PoliciesOk(policyOf) && KeyOk(key) && SafeNat(now) && high <= now + 2
    requires Traced(policyOf, rs, key, until, window, count, sum, high)
    requires Align(now, policyOf(key.0).windowMs) <= window && count < Min(policyOf(key.0).max, MAX_SAFE_INTEGER)
    ensures Traced(policyOf, rs + [Request(key, now, Returns)], key, until, window, count + 1,
                   sum + Counts(now, policyOf(key.0).windowMs - 1, until), Max(high, now))
  {
    TraceOneMore(policyOf, rs, key, now, high);
  }

  /** n more of them. */
  lemma {:induction false} TraceBurst(
      policyOf: string -> Policy, rs: seq<Request>, key: Key, now: nat, n: nat,
      until: nat, window: nat, count: nat, sum: nat, high: nat) returns (rs': seq<Request>)
    requires PoliciesOk(policyOf) && KeyOk(key) && SafeNat(now) && high <= now + 2
    requires Traced(policyOf, rs, key, until, window, count, sum, high)
    requires Align(now, policyOf(key.0).windowMs) <= window
    requires count + n <= Min(policyOf(key.0).max, MAX_SAFE_INTEGER)
    requires policyOf(key.0).windowMs - 1 <= now < until
    ensures Traced(policyOf, rs', key, until, window, count + n, sum + n, if n == 0 then high else Max(high, now))
  {
    if n == 0 {
      rs' := rs;
    } else {
      rs' := TraceBurst(policyOf, rs, key, now, n - 1, until, window, count, sum, high);
      TraceJoin(policyOf, rs', key, now, until, window, count + n - 1, sum + n - 1,
                if n == 1 then high else Max(high, now));
      rs' := rs' + [Request(key, now, Returns)];
    }
  }

  /** A request that opens a newer window. */
  lemma {:induction false} TraceOpen(
      policyOf: string -> Policy, rs: seq<Request>, key: Key, now: nat,
      until: nat, window: nat, count: nat, sum: nat, high: nat)
    requires PoliciesOk(policyOf) && KeyOk(key) && SafeNat(now) && high <= now + 2
    requires Traced(policyOf, rs, key, until, window, count, sum, high)
    requires Align(now, policyOf(key.0).windowMs) > window
    ensures Traced(policyOf, rs + [Request(key, now, Returns)], key, until, Align(now, policyOf(key.0).windowMs), 1,
                   sum + Counts(now, policyOf(key.0).windowMs - 1, until), Max(high, now))
  {
    TraceOneMore(policyOf, rs, key, now, high);
  }

  /** The first request of all. */
  lemma {:induction false} TraceFirst(policyOf: string -> Policy, key: Key, now: nat, until: nat)
    requires PoliciesOk(policyOf) && KeyOk(key) && SafeNat(now)
    requires policyOf(key.0).windowMs - 1 <= now < until
    ensures Traced(policyOf, [] + [Request(key, now, Returns)], key, until,
                   Align(now, policyOf(key.0).windowMs), 1, 1, now)
  {
    TraceOneMore(policyOf, [], key, now, 0);
  }

  /** Windows wide enough, and readings and counts small enough to be safe integers. */
  ghost predicate Roomy(policyOf: string -> Policy, key: Key) {
    2 <= policyOf(key.0).windowMs && 2 * policyOf(key.0).windowMs <= MAX_SAFE_INTEGER
    && policyOf(key.0).max <= MAX_SAFE_INTEGER
  }

  lemma {:induction false} WindowsOfReadings(width: nat)
    requires width >= 2
    ensures Align(width - 1, width) == 0 && Align(width, width) == width
    ensures Align(2 * width - 2, width) == width && Align(2 * width, width) == 2 * width
  {
    AlignUnique(width - 1, width, 0);
    MultipleOf(1, width);
    MultipleOf(2, width);
    AlignUnique(width, width, width);
    AlignUnique(2 * width - 2, width, width);
    AlignUnique(2 * width, width, 2 * width);
  }

  /** max requests read the last millisecond of one window. */
  lemma {:induction false} FullWindow(policyOf: string -> Policy, key: Key, width: nat, max: nat)
      returns (rs: seq<Request>)
    requires PoliciesOk(policyOf) && KeyOk(key) && Roomy(policyOf, key)
    requires policyOf(key.0) == Policy(max, width)
    ensures Traced(policyOf, rs, key, 2 * width - 1, 0, max, max, width - 1)
  {
    WindowsOfReadings(width);
    TraceFirst(policyOf, key, width - 1, 2 * width - 1);
    rs := [] + [Request(key, width - 1, Returns)];
    rs := TraceBurst(policyOf, rs, key, width - 1, max - 1, 2 * width - 1, 0, 1, 1, width - 1);
  }

  /** And max read the first of the next. */
  lemma {:induction false} TwoFullWindows(policyOf: string -> Policy, key: Key, width: nat, max: nat)
      returns (rs: seq<Request>)
    requires PoliciesOk(policyOf) && KeyOk(key) && Roomy(policyOf, key)
    requires policyOf(key.0) == Policy(max, width)
    ensures Traced(policyOf, rs, key, 2 * width - 1, width, max, 2 * max, width)
  {
    WindowsOfReadings(width);
    var until := 2 * width - 1;
    rs := FullWindow(policyOf, key, width, max);
    TraceOpen(policyOf, rs, key, width, until, 0, max, max, width - 1);
    rs := rs + [Request(key, width, Returns)];
    rs := TraceBurst(policyOf, rs, key, width, max - 1, until, width, 1, max + 1, width);
  }

  /** After them one reads the first of the window that follows; then max - 1 that read two milliseconds less land. */
  lemma {:induction false} OutOfOrderRun(policyOf: string -> Policy, key: Key) returns (rs: seq<Request>)
    requires PoliciesOk(policyOf) && KeyOk(key) && Roomy(policyOf, key)
    ensures var log := Exec(policyOf, rs).log;
            var policy := policyOf(key.0);
            && LandsWithin(log, key, 2)
            && Sum(log, AllowedBetween(key, policy.windowMs - 1, 2 * policy.windowMs - 1)) == 3 * policy.max - 1
  {
    var width, max := policyOf(key.0).windowMs, policyOf(key.0).max;
    var until := 2 * width - 1;
    WindowsOfReadings(width);
    rs := TwoFullWindows(policyOf, key, width, max);
    TraceOpen(policyOf, rs, key, 2 * width, until, width, max, 2 * max, width);
    rs := rs + [Request(key, 2 * width, Returns)];
    rs := TraceBurst(policyOf, rs, key, 2 * width - 2, max - 1, until, 2 * width, 1, 2 * max, 2 * width);
  }

  /** This run allows at most twice max in the interval of one width that starts here. */
  ghost predicate AtMostTwice(policyOf: string -> Policy, rs: seq<Request>, key: Key, from: nat)
    requires PoliciesOk(policyOf)
  {
    Sum(Exec(policyOf, rs).log, AllowedBetween(key, from, from + policyOf(key.0).windowMs)) <= 2 * policyOf(key.0).max
  }

  /** So does every run whose readings land within this skew, in every such interval. */
  ghost predicate TwiceMaxHolds(policyOf: string -> Policy, key: Key, skew: nat)
    requires PoliciesOk(policyOf)
  {
    forall rs, from :: LandsWithin(Exec(policyOf, rs).log, key, skew) ==> AtMostTwice(policyOf, rs, key, from)
  }

  /** The exact tolerance: twice max is a bound if and only if readings land at most one millisecond out of order. */
  lemma {:induction false} TwiceMaxExactly(policyOf: string -> Policy, key: Key, skew: nat)
    requires PoliciesOk(policyOf) && KeyOk(key) && Roomy(policyOf, key) && policyOf(key.0).max >= 2
    ensures TwiceMaxHolds(policyOf, key, skew) <==> skew <= 1
  {
    if skew <= 1 {
      forall rs, from: nat | LandsWithin(Exec(policyOf, rs).log, key, skew)
        ensures AtMostTwice(policyOf, rs, key, from)
      {
        AllowedWithinOneMs(policyOf, rs, key, skew, from);
      }
    } else {
      var rs := OutOfOrderRun(policyOf, key);
      var width := policyOf(key.0).windowMs;
      assert LandsWithin(Exec(policyOf, rs).log, key, skew);
      assert width - 1 + width == 2 * width - 1;
      assert !AtMostTwice(policyOf, rs, key, width - 1);
    }
  }

  /** At the sponsor's policy: two milliseconds out of order, and 2999 submits are sponsored within 24 hours. */
  lemma {:induction false} SponsoredOutOfOrder(policyOf: string -> Policy) returns (rs: seq<Request>)
    requires PoliciesOk(policyOf)
    ensures LandsWithin(Exec(policyOf, rs).log, SPONSOR_KEY, 2)
    ensures Sum(Exec(policyOf, rs).log, AllowedBetween(SPONSOR_KEY, DAY_MS - 1, 2 * DAY_MS - 1)) == 2999
  {
    rs := OutOfOrderRun(policyOf, SPONSOR_KEY);
  }
}
