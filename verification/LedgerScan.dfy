/** The windowed event scan over a ledger range, against an RPC with a sliding retention floor. */
module LedgerScan {
  import opened Basics

  const WINDOW_LEDGERS: int := 5000
  const MAX_WINDOWS: nat := 8

  /** What one getEvents call gives: its events, a reported retention floor, or any other error. */
  datatype Reply = Events(events: seq<string>) | BelowFloor(floor: nat) | Error

  datatype Call = Call(from: int, to: int, reply: Reply)

  /** A page never reports a latest ledger: the scan withholds the one it has read. */
  datatype Result =
    | Threw
    | Page(events: seq<string>, scannedThrough: int, latestLedger: Option<int>, retentionClampedFrom: Option<int>)

  function RequestEnd(endLedger: Option<int>, latestSequence: int): int {
    if endLedger.Some? then endLedger.value else latestSequence
  }

  /** A floor that lets the scan move forward; any other one is thrown on. */
  predicate UsableFloor(c: Call) {
    c.reply.BelowFloor? && SafeNat(c.reply.floor) && c.reply.floor > c.from
  }

  /** The ledger at which the scan goes on after this call. */
  function NextFrom(c: Call): int {
    if c.reply.BelowFloor? then c.reply.floor else c.to + 1
  }

  function EventsOf(calls: seq<Call>): seq<string> {
    if calls == [] then []
    else
      var last := calls[|calls| - 1];
      EventsOf(calls[..|calls| - 1]) + (if last.reply.Events? then last.reply.events else [])
  }

  function LastEnd(calls: seq<Call>): Option<int> {
    if calls == [] then None
    else if calls[|calls| - 1].reply.Events? then Some(calls[|calls| - 1].to)
    else LastEnd(calls[..|calls| - 1])
  }

  function FirstFloor(calls: seq<Call>): Option<int> {
    if calls == [] then None
    else if calls[0].reply.BelowFloor? then Some(calls[0].reply.floor)
    else FirstFloor(calls[1..])
  }

  predicate InWindow(c: Call, ledger: int) {
    c.reply.Events? && c.from <= ledger <= c.to
  }

  predicate BelowReportedFloor(c: Call, ledger: int) {
    c.reply.BelowFloor? && ledger < c.reply.floor
  }

  /** A ledger the scan has accounted for: requested successfully, or below a floor the RPC reported. */
  predicate Covered(calls: seq<Call>, ledger: int) {
    exists k :: 0 <= k < |calls| && (InWindow(calls[k], ledger) || BelowReportedFloor(calls[k], ledger))
  }

  predicate Requested(calls: seq<Call>, ledger: int) {
    exists k :: 0 <= k < |calls| && InWindow(calls[k], ledger)
  }

  /** The calls follow the request: each takes up where the last left off, in windows within the range. */
  ghost predicate Chain(calls: seq<Call>, start: int, requestEnd: int) {
    && (calls != [] ==> calls[0].from == start)
    && (forall k :: 0 <= k < |calls| ==>
          calls[k].from <= calls[k].to == Min(requestEnd, calls[k].from + 4999))
    && (forall k :: 0 <= k < |calls| - 1 ==>
          calls[k + 1].from == NextFrom(calls[k]) && (calls[k].reply.Events? || UsableFloor(calls[k])))
  }

  lemma {:induction false} FirstFloorOfAppend(calls: seq<Call>, c: Call)
    ensures FirstFloor(calls + [c]) ==
              if FirstFloor(calls).Some? then FirstFloor(calls)
              else if c.reply.BelowFloor? then Some(c.reply.floor) else None
  {
    if calls == [] {
      assert ([] + [c])[1..] == [];
    } else {
      FirstFloorOfAppend(calls[1..], c);
      assert (calls + [c])[1..] == calls[1..] + [c];
    }
  }

  /** The state of the loop: what has been collected from the calls made so far. */
  ghost predicate Progress(
      calls: seq<Call>, start: int, requestEnd: int, from: int,
      events: seq<string>, lastEnd: Option<int>, clamped: Option<int>) {
    && Chain(calls, start, requestEnd)
    && (forall k :: 0 <= k < |calls| ==> calls[k].reply.Events? || UsableFloor(calls[k]))
    && from == (if calls == [] then start else NextFrom(calls[|calls| - 1]))
    && events == EventsOf(calls) && lastEnd == LastEnd(calls)
    && clamped == FirstFloor(calls)
  }

  /** The next call of the loop. */
  ghost predicate NextCall(c: Call, from: int, requestEnd: int) {
    c.from == from && c.from <= c.to == Min(requestEnd, from + WINDOW_LEDGERS - 1)
  }

  lemma {:induction false} ProgressChains(
      calls: seq<Call>, start: int, requestEnd: int, from: int,
      events: seq<string>, lastEnd: Option<int>, clamped: Option<int>, c: Call)
    requires Progress(calls, start, requestEnd, from, events, lastEnd, clamped)
    requires NextCall(c, from, requestEnd)
    ensures Chain(calls + [c], start, requestEnd)
  {
    var calls' := calls + [c];
    forall k | 0 <= k < |calls'| - 1
      ensures calls'[k + 1].from == NextFrom(calls'[k]) && (calls'[k].reply.Events? || UsableFloor(calls'[k]))
    {
      if k < |calls| - 1 {
        assert calls'[k + 1] == calls[k + 1];
      }
    }
  }

  lemma {:induction false} ProgressGoesOn(
      calls: seq<Call>, start: int, requestEnd: int, from: int,
      events: seq<string>, lastEnd: Option<int>, clamped: Option<int>, c: Call)
    requires Progress(calls, start, requestEnd, from, events, lastEnd, clamped)
    requires NextCall(c, from, requestEnd) && (c.reply.Events? || UsableFloor(c))
    ensures Progress(calls + [c], start, requestEnd, NextFrom(c),
              events + (if c.reply.Events? then c.reply.events else []),
              if c.reply.Events? then Some(c.to) else lastEnd,
              if clamped.None? && c.reply.BelowFloor? then Some(c.reply.floor) else clamped)
  {
    ProgressChains(calls, start, requestEnd, from, events, lastEnd, clamped, c);
    FirstFloorOfAppend(calls, c);
    assert (calls + [c])[..|calls|] == calls;
  }

  /** The two ways on: a full window was read, or the RPC reported a floor to move to. */
  lemma {:induction false} ProgressByWindow(
      calls: seq<Call>, start: int, requestEnd: int, from: int,
      events: seq<string>, lastEnd: Option<int>, clamped: Option<int>, c: Call)
    requires Progress(calls, start, requestEnd, from, events, lastEnd, clamped)
    requires NextCall(c, from, requestEnd) && c.reply.Events?
    ensures Progress(calls + [c], start, requestEnd, c.to + 1, events + c.reply.events, Some(c.to), clamped)
  {
    ProgressGoesOn(calls, start, requestEnd, from, events, lastEnd, clamped, c);
  }

  lemma {:induction false} ProgressByFloor(
      calls: seq<Call>, start: int, requestEnd: int, from: int,
      events: seq<string>, lastEnd: Option<int>, clamped: Option<int>, c: Call)
    requires Progress(calls, start, requestEnd, from, events, lastEnd, clamped)
    requires NextCall(c, from, requestEnd) && UsableFloor(c)
    ensures Progress(calls + [c], start, requestEnd, c.reply.floor, events, lastEnd,
              if clamped.None? then Some(c.reply.floor) else clamped)
  {
    ProgressGoesOn(calls, start, requestEnd, from, events, lastEnd, clamped, c);
    assert events + [] == events;
  }

  /** The loop; calls is the trace of the requests it makes, and rpc what the RPC would answer to them. */
  method GetEvents(startLedger: int, endLedger: Option<int>, latestSequence: int, rpc: seq<Reply>)
      returns (result: Result, calls: seq<Call>)
    requires |rpc| >= 8
    ensures |calls| <= 8 && forall k :: 0 <= k < |calls| ==> calls[k].reply == rpc[k]
    ensures Chain(calls, startLedger, if endLedger.Some? then endLedger.value else latestSequence)
    ensures result.Threw? <==> calls != [] && !calls[|calls| - 1].reply.Events? && !UsableFloor(calls[|calls| - 1])
    ensures result.Page? ==>
              && result.events == EventsOf(calls)
              && result.scannedThrough == (if LastEnd(calls).Some? then LastEnd(calls).value else startLedger)
              && result.latestLedger == None
              && result.retentionClampedFrom == FirstFloor(calls)
              && (|calls| == 8
                  || (if calls == [] then startLedger else NextFrom(calls[|calls| - 1]))
                     > (if endLedger.Some? then endLedger.value else latestSequence))
  {
    var collected: seq<string> := [];
    var clamped: Option<int> := None;
    var from := startLedger;
    var requestEnd := RequestEnd(endLedger, latestSequence);
    var windows := 0;
    var lastWindowEnd: Option<int> := None;
    calls := [];
    while windows < MAX_WINDOWS
      invariant windows == |calls| <= MAX_WINDOWS
      invariant forall k :: 0 <= k < |calls| ==> calls[k].reply == rpc[k]
      invariant Progress(calls, startLedger, requestEnd, from, collected, lastWindowEnd, clamped)
    {
      windows := windows + 1;
      var to := Min(requestEnd, from + WINDOW_LEDGERS - 1);
      if to < from {
        break;
      }
      var reply := rpc[windows - 1];
      var call := Call(from, to, reply);
      ghost var before := calls;
      calls := calls + [call];
      if reply.Error? || (reply.BelowFloor? && (!SafeNat(reply.floor) || reply.floor <= from)) {
        ProgressChains(before, startLedger, requestEnd, from, collected, lastWindowEnd, clamped, call);
        return Threw, calls;
      }
      if reply.BelowFloor? {
        ProgressByFloor(before, startLedger, requestEnd, from, collected, lastWindowEnd, clamped, call);
        if clamped.None? {
          clamped := Some(reply.floor);
        }
        from := reply.floor;
        continue;
      }
      ProgressByWindow(before, startLedger, requestEnd, from, collected, lastWindowEnd, clamped, call);
      collected := collected + reply.events;
      lastWindowEnd := Some(to);
      from := to + 1;
      if to >= requestEnd {
        break;
      }
    }
    result := Page(collected, if lastWindowEnd.Some? then lastWindowEnd.value else startLedger, None, clamped);
  }

  // ---- What the reported end is worth ----

  /** Later calls start beyond everything earlier ones accounted for. */
  lemma {:induction false} CallsAdvance(calls: seq<Call>, start: int, requestEnd: int, i: nat, j: nat)
    requires Chain(calls, start, requestEnd) && i < j < |calls|
    ensures NextFrom(calls[i]) <= calls[j].from
    ensures calls[i].from < calls[j].from
    decreases j - i
  {
    if i + 1 < j {
      CallsAdvance(calls, start, requestEnd, i, j - 1);
    }
  }

  /** Successful windows are disjoint and come in increasing order. */
  lemma {:induction false} WindowsAreDisjoint(calls: seq<Call>, start: int, requestEnd: int, i: nat, j: nat)
    requires Chain(calls, start, requestEnd) && i < j < |calls| && calls[i].reply.Events? && calls[j].reply.Events?
    ensures calls[i].to < calls[j].from
  {
    CallsAdvance(calls, start, requestEnd, i, j);
  }

  lemma {:induction false} SomeFloor(calls: seq<Call>, n: nat)
    requires n < |calls| && calls[n].reply.BelowFloor?
    ensures FirstFloor(calls).Some?
  {
    if n > 0 && !calls[0].reply.BelowFloor? {
      SomeFloor(calls[1..], n - 1);
    }
  }

  /** Everything from the start up to where the scan stands is accounted for. */
  lemma {:induction false} PrefixIsCovered(calls: seq<Call>, start: int, requestEnd: int, n: nat, ledger: int)
    requires Chain(calls, start, requestEnd) && n < |calls|
    requires forall k :: 0 <= k < |calls| ==> calls[k].reply.Events? || UsableFloor(calls[k])
    requires start <= ledger < NextFrom(calls[n])
    ensures Covered(calls, ledger)
    ensures FirstFloor(calls).None? ==> Requested(calls, ledger)
  {
    if ledger < calls[n].from {
      PrefixIsCovered(calls, start, requestEnd, n - 1, ledger);
    } else {
      assert InWindow(calls[n], ledger) || BelowReportedFloor(calls[n], ledger);
      if calls[n].reply.BelowFloor? {
        SomeFloor(calls, n);
      }
    }
  }

  lemma {:induction false} LastEndIsSome(calls: seq<Call>) returns (n: nat)
    requires LastEnd(calls).Some?
    ensures n < |calls| && calls[n].reply.Events? && calls[n].to == LastEnd(calls).value
  {
    if calls[|calls| - 1].reply.Events? {
      n := |calls| - 1;
    } else {
      n := LastEndIsSome(calls[..|calls| - 1]);
    }
  }

  /**
   * The scan is honest exactly when the range is not empty: every ledger from the start to the
   * reported end is accounted for if and only if the start does not lie beyond the requested end.
   * Without a reported floor, each of them was in a successful request.
   */
  lemma {:induction false} ScanIsHonest(calls: seq<Call>, start: int, requestEnd: int)
    requires Chain(calls, start, requestEnd)
    requires forall k :: 0 <= k < |calls| ==> calls[k].reply.Events? || UsableFloor(calls[k])
    requires calls == [] ==> start > requestEnd
    ensures var end := if LastEnd(calls).Some? then LastEnd(calls).value else start;
            && (start <= requestEnd <==> forall l :: start <= l <= end ==> Covered(calls, l))
            && (start <= requestEnd && FirstFloor(calls).None? ==>
                  forall l :: start <= l <= end ==> Requested(calls, l))
  {
    var end := if LastEnd(calls).Some? then LastEnd(calls).value else start;
    if start <= requestEnd {
      var n: nat := 0;
      if LastEnd(calls).Some? {
        n := LastEndIsSome(calls);
      }
      forall l | start <= l <= end
        ensures Covered(calls, l)
        ensures FirstFloor(calls).None? ==> Requested(calls, l)
      {
        PrefixIsCovered(calls, start, requestEnd, n, l);
      }
    } else {
      assert calls == [];
      assert !Covered(calls, start);
    }
  }

  /** An honest RPC without retention errors is scanned to the end, or for eight full windows. */
  lemma {:induction false} FullScanReach(calls: seq<Call>, start: int, requestEnd: int, n: nat)
    requires Chain(calls, start, requestEnd) && n < |calls|
    requires forall k :: 0 <= k < |calls| ==> calls[k].reply.Events?
    ensures calls[n].to == Min(requestEnd, start + (n + 1) * WINDOW_LEDGERS - 1)
  {
    if n > 0 {
      FullScanReach(calls, start, requestEnd, n - 1);
    }
  }
}
