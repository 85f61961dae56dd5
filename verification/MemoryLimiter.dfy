/** The in-memory per-client limiter and its prune on overflow. */
module MemoryLimiter {
  import opened Basics
  import opened Windows

  const MAX_BUCKETS: nat := 5000

  datatype Entry = Entry(count: int, resetAt: int)
  type Buckets = map<string, Entry>

  /** One request with a usable client address; key is `${bucket}:${ip}`. */
  datatype Request = Request(key: string, now: int, max: int, windowMs: int)

  datatype Verdict = Allowed | TooMany(retryAfter: nat) | Unavailable

  predicate Live(b: Buckets, key: string, now: int) {
    key in b && now < b[key].resetAt
  }

  /** The limiter without its prune. */
  function Decide(b: Buckets, r: Request): (Buckets, Verdict) {
    if !Live(b, r.key, r.now) then (b[r.key := Entry(1, r.now + r.windowMs)], Allowed)
    else if b[r.key].count >= r.max then (b, TooMany(RetryAfter(b[r.key].resetAt, r.now)))
    else (b[r.key := b[r.key].(count := b[r.key].count + 1)], Allowed)
  }

  function Pruned(b: Buckets, now: int): Buckets {
    map key | key in b && now < b[key].resetAt :: b[key]
  }

  /** The limiter as written, with the overflow limit as a parameter. */
  function DecidePruning(limit: nat, b: Buckets, r: Request): (Buckets, Verdict) {
    Decide(if |b| > limit then Pruned(b, r.now) else b, r)
  }

  // ---- Runs ----

  function Run(rs: seq<Request>): (r: (Buckets, seq<Verdict>))
    ensures |r.1| == |rs|
  {
    if rs == [] then (map[], [])
    else
      var (b, vs) := Run(rs[..|rs| - 1]);
      var (b', v) := Decide(b, rs[|rs| - 1]);
      (b', vs + [v])
  }

  function RunPruning(limit: nat, rs: seq<Request>): (r: (Buckets, seq<Verdict>))
    ensures |r.1| == |rs|
  {
    if rs == [] then (map[], [])
    else
      var (b, vs) := RunPruning(limit, rs[..|rs| - 1]);
      var (b', v) := DecidePruning(limit, b, rs[|rs| - 1]);
      (b', vs + [v])
  }

  predicate NonDecreasing(rs: seq<Request>) {
    forall i, j :: 0 <= i < j < |rs| ==> rs[i].now <= rs[j].now
  }

  /** The pruned map is the full map without some entries that have expired by now. */
  ghost predicate Simulates(full: Buckets, pruned: Buckets, now: int) {
    && (forall key :: key in pruned ==> key in full && full[key] == pruned[key])
    && (forall key :: key in full && key !in pruned ==> full[key].resetAt <= now)
  }

  lemma {:induction false} DecideKeepsSimulation(limit: nat, full: Buckets, pruned: Buckets, r: Request)
    requires Simulates(full, pruned, r.now)
    ensures Decide(full, r).1 == DecidePruning(limit, pruned, r).1
    ensures Simulates(Decide(full, r).0, DecidePruning(limit, pruned, r).0, r.now)
  {
    var p := if |pruned| > limit then Pruned(pruned, r.now) else pruned;
    assert Simulates(full, p, r.now);
    assert Live(full, r.key, r.now) <==> Live(p, r.key, r.now);
  }

  lemma {:induction false} RunsSimulate(limit: nat, rs: seq<Request>, now: int)
    requires NonDecreasing(rs)
    requires rs != [] ==> rs[|rs| - 1].now <= now
    ensures Run(rs).1 == RunPruning(limit, rs).1
    ensures Simulates(Run(rs).0, RunPruning(limit, rs).0, now)
  {
    if rs != [] {
      var before, r := rs[..|rs| - 1], rs[|rs| - 1];
      RunsSimulate(limit, before, r.now);
      DecideKeepsSimulation(limit, Run(before).0, RunPruning(limit, before).0, r);
    }
  }

  /** With time that never decreases, pruning never changes a decision, whatever its limit. */
  lemma {:induction false} PruningIsInvisible(limit: nat, rs: seq<Request>)
    requires NonDecreasing(rs)
    ensures RunPruning(limit, rs).1 == Run(rs).1
  {
    RunsSimulate(limit, rs, if rs == [] then 0 else rs[|rs| - 1].now);
  }

  // ---- Exactly when pruning shows ----

  /** Pruning at time p changes one verdict exactly when it drops a spent entry still live for that request. */
  lemma {:induction false} PruneShowsExactly(b: Buckets, r: Request, p: int)
    ensures Decide(b, r).1 != Decide(Pruned(b, p), r).1 <==>
            r.key in b && r.now < b[r.key].resetAt <= p && b[r.key].count >= r.max
  {
    assert Live(b, r.key, r.now) && b[r.key].resetAt > p ==> Live(Pruned(b, p), r.key, r.now);
  }

  predicate PositiveWidths(rs: seq<Request>) {
    forall i :: 0 <= i < |rs| ==> rs[i].windowMs >= 1
  }

  predicate OnClock(rs: seq<Request>, ts: seq<int>) {
    |rs| == |ts| && forall i :: 0 <= i < |rs| ==> rs[i].now == ts[i]
  }

  /** Reading j lies strictly above the earlier reading i and the later reading k. */
  predicate PeakAt(ts: seq<int>, i: nat, j: nat, k: nat) {
    i < j < k < |ts| && ts[i] < ts[j] && ts[k] < ts[j]
  }

  ghost predicate Peak(ts: seq<int>) {
    exists i: nat, j: nat, k: nat :: PeakAt(ts, i, j, k)
  }

  /** The lowest reading. */
  function Low(ts: seq<int>): int
    requires ts != []
  {
    if |ts| == 1 then ts[0] else Min(Low(ts[..|ts| - 1]), ts[|ts| - 1])
  }

  /** The highest reading that lies strictly above an earlier one. */
  function Crest(ts: seq<int>): Option<int> {
    if |ts| <= 1 then None
    else
      var before, t := ts[..|ts| - 1], ts[|ts| - 1];
      if t <= Low(before) then Crest(before)
      else if Crest(before).Some? then Some(Max(Crest(before).value, t))
      else Some(t)
  }

  /** No reading falls below the crest of the readings before it. */
  predicate Smooth(ts: seq<int>) {
    ts == [] ||
    (var before, t := ts[..|ts| - 1], ts[|ts| - 1];
     Smooth(before) && (Crest(before).Some? ==> Crest(before).value <= t))
  }

  lemma {:induction false} LowIsLowest(ts: seq<int>) returns (i: nat)
    requires ts != []
    ensures i < |ts| && ts[i] == Low(ts)
    ensures forall k :: 0 <= k < |ts| ==> Low(ts) <= ts[k]
  {
    var last := |ts| - 1;
    i := last;
    if last > 0 {
      var i' := LowIsLowest(ts[..last]);
      if ts[i'] <= ts[last] {
        i := i';
      }
      assert forall k :: 0 <= k < last ==> ts[..last][k] == ts[k];
    }
  }

  lemma {:induction false} CrestIsReached(ts: seq<int>) returns (i: nat, j: nat)
    requires Crest(ts).Some?
    ensures i < j < |ts| && ts[i] < ts[j] == Crest(ts).value
  {
    var last := |ts| - 1;
    var low := LowIsLowest(ts[..last]);
    if ts[last] > Low(ts[..last]) && Crest(ts) == Some(ts[last]) {
      i, j := low, last;
    } else {
      i, j := CrestIsReached(ts[..last]);
    }
  }

  lemma {:induction false} CrestIsHighest(ts: seq<int>, i: nat, j: nat)
    requires i < j < |ts| && ts[i] < ts[j]
    ensures Crest(ts).Some? && ts[j] <= Crest(ts).value
  {
    var last := |ts| - 1;
    var low := LowIsLowest(ts[..last]);
    if j < last {
      CrestIsHighest(ts[..last], i, j);
    } else {
      assert Low(ts[..last]) <= ts[..last][i];
    }
  }

  lemma {:induction false} SmoothIffNoPeak(ts: seq<int>)
    ensures Smooth(ts) <==> !Peak(ts)
  {
    if ts != [] {
      var last := |ts| - 1;
      var before := ts[..last];
      SmoothIffNoPeak(before);
      if Peak(before) {
        var i, j, k :| PeakAt(before, i, j, k);
        assert PeakAt(ts, i, j, k);
      } else if Crest(before).Some? && Crest(before).value > ts[last] {
        var i, j := CrestIsReached(before);
        assert PeakAt(ts, i, j, last);
      }
      forall i: nat, j: nat, k: nat | PeakAt(ts, i, j, k) ensures !Smooth(ts) {
        if k < last {
          assert PeakAt(before, i, j, k);
        } else {
          CrestIsHighest(before, i, j);
        }
      }
    }
  }

  // ---- Without a peak pruning never shows ----

  /** The pruned map lacks only entries that end at or below the crest; every entry ends above the lowest reading. */
  ghost predicate Follows(ts: seq<int>, full: Buckets, pruned: Buckets) {
    && (forall key :: key in full ==> ts != [] && Low(ts) < full[key].resetAt)
    && (forall key :: key in pruned ==> key in full && full[key] == pruned[key])
    && (forall key :: key in full && key !in pruned ==> Crest(ts).Some? && full[key].resetAt <= Crest(ts).value)
  }

  lemma {:induction false} DecideFollows(limit: nat, ts: seq<int>, r: Request, full: Buckets, pruned: Buckets)
    requires Follows(ts, full, pruned) && r.windowMs >= 1 && Smooth(ts + [r.now])
    ensures Decide(full, r).1 == DecidePruning(limit, pruned, r).1
    ensures Follows(ts + [r.now], Decide(full, r).0, DecidePruning(limit, pruned, r).0)
  {
    assert (ts + [r.now])[..|ts|] == ts;
    var p := if |pruned| > limit then Pruned(pruned, r.now) else pruned;
    assert Follows(ts + [r.now], full, p);
    assert Live(full, r.key, r.now) <==> Live(p, r.key, r.now);
  }

  lemma {:induction false} RunOneMore(limit: nat, rs: seq<Request>, r: Request)
    ensures var (b, v) := Decide(Run(rs).0, r); Run(rs + [r]) == (b, Run(rs).1 + [v])
    ensures var (b, v) := DecidePruning(limit, RunPruning(limit, rs).0, r);
            RunPruning(limit, rs + [r]) == (b, RunPruning(limit, rs).1 + [v])
  {
    assert (rs + [r])[..|rs|] == rs;
  }

  /** On a clock without a peak pruning never shows, whatever its limit. */
  lemma {:induction false} InvisibleWithoutPeak(limit: nat, rs: seq<Request>, ts: seq<int>)
    requires PositiveWidths(rs) && OnClock(rs, ts) && Smooth(ts)
    ensures RunPruning(limit, rs).1 == Run(rs).1
    ensures Follows(ts, Run(rs).0, RunPruning(limit, rs).0)
  {
    if rs != [] {
      var last := |rs| - 1;
      InvisibleWithoutPeak(limit, rs[..last], ts[..last]);
      RunOneMore(limit, rs[..last], rs[last]);
      assert rs == rs[..last] + [rs[last]] && ts == ts[..last] + [rs[last].now];
      DecideFollows(limit, ts[..last], rs[last], Run(rs[..last]).0, RunPruning(limit, rs[..last]).0);
    }
  }

  // ---- At a peak it shows, at the limit in force ----

  /** "a" opens an entry that ends at t2; then come n requests of other clients, at the same reading t1. */
  function Flood(t1: int, t2: int, n: nat): (rs: seq<Request>)
    requires t1 < t2
    ensures |rs| == n + 1 && PositiveWidths(rs) && forall i :: 0 <= i <= n ==> rs[i].now == t1
  {
    if n == 0 then [Request("a", t1, 1, t2 - t1)] else Flood(t1, t2, n - 1) + [Request(Name(n), t1, 1, 1)]
  }

  /** The entry of "a" beside n others. */
  ghost predicate Filled(b: Buckets, t2: int, n: nat) {
    |b| == n + 1 && "a" in b && b["a"] == Entry(1, t2) && forall key :: key in b && key != "a" ==> |key| <= n
  }

  lemma {:induction false} FillOneMore(b: Buckets, t1: int, t2: int, n: nat)
    requires Filled(b, t2, n)
    ensures Filled(Decide(b, Request(Name(n + 1), t1, 1, 1)).0, t2, n + 1)
  {
    var name := Name(n + 1);
    assert |name| == n + 1 && name[0] == 'x' != "a"[0];
    assert name !in b;
  }

  /** With and without pruning, these requests leave the entry of "a" beside n others. */
  ghost predicate FillsBoth(limit: nat, rs: seq<Request>, t2: int, n: nat) {
    Filled(Run(rs).0, t2, n) && RunPruning(limit, rs).0 == Run(rs).0
  }

  lemma {:induction false} FirstFills(limit: nat, t1: int, t2: int)
    requires t1 < t2
    ensures FillsBoth(limit, [Request("a", t1, 1, t2 - t1)], t2, 0)
  {
    var first := Request("a", t1, 1, t2 - t1);
    RunOneMore(limit, [], first);
    assert [] + [first] == [first];
  }

  lemma {:induction false} NextFills(limit: nat, rs: seq<Request>, t1: int, t2: int, n: nat)
    requires n < limit && FillsBoth(limit, rs, t2, n)
    ensures FillsBoth(limit, rs + [Request(Name(n + 1), t1, 1, 1)], t2, n + 1)
  {
    RunOneMore(limit, rs, Request(Name(n + 1), t1, 1, 1));
    FillOneMore(Run(rs).0, t1, t2, n);
  }

  lemma {:induction false} FloodFills(limit: nat, t1: int, t2: int, n: nat)
    requires n <= limit && t1 < t2
    ensures FillsBoth(limit, Flood(t1, t2, n), t2, n)
  {
    if n == 0 {
      FirstFills(limit, t1, t2);
    } else {
      FloodFills(limit, t1, t2, n - 1);
      NextFills(limit, Flood(t1, t2, n - 1), t1, t2, n - 1);
    }
  }

  /** The clock shows t1, then t2 from request m on, then t3 from request n on. */
  predicate ThreeReadings(rs: seq<Request>, t1: int, t2: int, t3: int, m: nat, n: nat) {
    m <= n && forall i :: 0 <= i < |rs| ==> rs[i].now == if i < m then t1 else if i < n then t2 else t3
  }

  /** Enough clients at t1, one request at t2, and the first client again at t3. */
  function PeakRun(limit: nat, t1: int, t2: int, t3: int): (rs: seq<Request>)
    requires t1 < t2
    ensures |rs| == limit + 3 && PositiveWidths(rs) && ThreeReadings(rs, t1, t2, t3, limit + 1, limit + 2)
  {
    Flood(t1, t2, limit) + [Request("b", t2, 1, 1)] + [Request("a", t3, 1, 1)]
  }

  lemma {:induction false} PeakShows(limit: nat, t1: int, t2: int, t3: int)
    requires t1 < t2 && t3 < t2
    ensures var rs := PeakRun(limit, t1, t2, t3);
            Run(rs).1[limit + 2].TooMany? && RunPruning(limit, rs).1[limit + 2] == Allowed
  {
    var flood := Flood(t1, t2, limit);
    FloodFills(limit, t1, t2, limit);
    var full := Run(flood).0;
    RunOneMore(limit, flood, Request("b", t2, 1, 1));
    RunOneMore(limit, flood + [Request("b", t2, 1, 1)], Request("a", t3, 1, 1));
    assert "a" !in Pruned(full, t2);
  }

  /** Pruning at this limit changes no verdict of any run whose clock shows t1, t2 and t3. */
  ghost predicate InvisibleOver(limit: nat, t1: int, t2: int, t3: int) {
    forall rs, m, n :: PositiveWidths(rs) && ThreeReadings(rs, t1, t2, t3, m, n)
      ==> RunPruning(limit, rs).1 == Run(rs).1
  }

  lemma {:induction false} FlatReadings(rs: seq<Request>, t1: int, t2: int, t3: int, m: nat, n: nat)
      returns (ts: seq<int>)
    requires ThreeReadings(rs, t1, t2, t3, m, n) && (t2 <= t1 || t2 <= t3)
    ensures OnClock(rs, ts) && Smooth(ts)
  {
    ts := seq(|rs|, i => if i < m then t1 else if i < n then t2 else t3);
    SmoothIffNoPeak(ts);
  }

  /** The exact condition, at the limit in force: pruning shows if and only if the middle reading is a peak. */
  lemma {:induction false} PruningShowsExactlyAtPeaks(t1: int, t2: int, t3: int)
    ensures InvisibleOver(5000, t1, t2, t3) <==> !(t1 < t2 && t3 < t2)
  {
    if t1 < t2 && t3 < t2 {
      var rs := PeakRun(MAX_BUCKETS, t1, t2, t3);
      PeakShows(MAX_BUCKETS, t1, t2, t3);
      assert RunPruning(MAX_BUCKETS, rs).1 != Run(rs).1;
    } else {
      forall rs, m, n | PositiveWidths(rs) && ThreeReadings(rs, t1, t2, t3, m, n)
        ensures RunPruning(MAX_BUCKETS, rs).1 == Run(rs).1
      {
        var ts := FlatReadings(rs, t1, t2, t3, m, n);
        InvisibleWithoutPeak(MAX_BUCKETS, rs, ts);
      }
    }
  }

  // ---- Exactly which clocks let it show under some policy and limit ----

  ghost predicate NeverShows(ts: seq<int>) {
    forall limit: nat, rs :: PositiveWidths(rs) && OnClock(rs, ts) ==> RunPruning(limit, rs).1 == Run(rs).1
  }

  /** Request n of this policy: client "a" comes at i and k only, with a window that ends at reading j. */
  function PeakRequest(ts: seq<int>, i: nat, j: nat, k: nat, n: nat): Request
    requires PeakAt(ts, i, j, k) && n < |ts|
  {
    Request(if n == i || n == k then "a" else "b", ts[n], 1, if n == i then ts[j] - ts[i] else 1)
  }

  /** The first requests of it. */
  predicate FollowsPolicy(rs: seq<Request>, ts: seq<int>, i: nat, j: nat, k: nat)
    requires PeakAt(ts, i, j, k)
  {
    |rs| <= |ts| && forall n :: 0 <= n < |rs| ==> rs[n] == PeakRequest(ts, i, j, k, n)
  }

  /** What "a" has after the first n of those requests, in the full and in the pruned map. */
  predicate Tracked(ts: seq<int>, i: nat, j: nat, n: nat, full: Buckets, pruned: Buckets)
    requires i < j < |ts|
  {
    && ("a" in full <==> n > i)
    && ("a" in full ==> full["a"] == Entry(1, ts[j]))
    && ("a" in pruned ==> i < n <= j && pruned["a"] == Entry(1, ts[j]))
  }

  lemma {:induction false} TrackOneMore(ts: seq<int>, i: nat, j: nat, k: nat, n: nat, full: Buckets, pruned: Buckets)
    requires PeakAt(ts, i, j, k) && n < k && Tracked(ts, i, j, n, full, pruned)
    ensures var r := PeakRequest(ts, i, j, k, n);
            Tracked(ts, i, j, n + 1, Decide(full, r).0, DecidePruning(0, pruned, r).0)
  {
    assert "a" in pruned ==> |pruned| > 0;
  }

  lemma {:induction false} MapsOneMore(limit: nat, rs: seq<Request>)
    requires rs != []
    ensures Run(rs).0 == Decide(Run(rs[..|rs| - 1]).0, rs[|rs| - 1]).0
    ensures RunPruning(limit, rs).0 == DecidePruning(limit, RunPruning(limit, rs[..|rs| - 1]).0, rs[|rs| - 1]).0
  {
  }

  lemma {:induction false} VerdictsStay(limit: nat, rs: seq<Request>, n: nat)
    requires n <= |rs|
    ensures Run(rs).1[..n] == Run(rs[..n]).1 && RunPruning(limit, rs).1[..n] == RunPruning(limit, rs[..n]).1
  {
    if n == |rs| {
      assert rs[..n] == rs;
    } else {
      var last := |rs| - 1;
      assert rs[..last][..n] == rs[..n] && rs == rs[..last] + [rs[last]];
      VerdictsStay(limit, rs[..last], n);
      RunOneMore(limit, rs[..last], rs[last]);
    }
  }

  lemma {:induction false} VerdictsOf(limit: nat, rs: seq<Request>, n: nat)
    requires n < |rs|
    ensures Run(rs).1[n] == Decide(Run(rs[..n]).0, rs[n]).1
    ensures RunPruning(limit, rs).1[n] == DecidePruning(limit, RunPruning(limit, rs[..n]).0, rs[n]).1
  {
    VerdictsStay(limit, rs, n + 1);
    assert rs[..n + 1] == rs[..n] + [rs[n]];
    RunOneMore(limit, rs[..n], rs[n]);
    assert Run(rs).1[n] == Run(rs).1[..n + 1][n] && RunPruning(limit, rs).1[n] == RunPruning(limit, rs).1[..n + 1][n];
  }

  lemma {:induction false} PolicyTracks(rs: seq<Request>, ts: seq<int>, i: nat, j: nat, k: nat)
    requires PeakAt(ts, i, j, k) && FollowsPolicy(rs, ts, i, j, k) && |rs| <= k
    ensures Tracked(ts, i, j, |rs|, Run(rs).0, RunPruning(0, rs).0)
  {
    if rs != [] {
      var before, n := rs[..|rs| - 1], |rs| - 1;
      PolicyTracks(before, ts, i, j, k);
      TrackOneMore(ts, i, j, k, n, Run(before).0, RunPruning(0, before).0);
      MapsOneMore(0, rs);
    }
  }

  /** At the third reading the full map still refuses "a", and the pruned one lets it in. */
  lemma {:induction false} LastDiffers(ts: seq<int>, i: nat, j: nat, k: nat, full: Buckets, pruned: Buckets)
    requires PeakAt(ts, i, j, k) && Tracked(ts, i, j, k, full, pruned)
    ensures var r := PeakRequest(ts, i, j, k, k); Decide(full, r).1 != DecidePruning(0, pruned, r).1
  {
  }

  /** The whole policy. */
  lemma {:induction false} PeakPolicy(ts: seq<int>, i: nat, j: nat, k: nat) returns (rs: seq<Request>)
    requires PeakAt(ts, i, j, k)
    ensures FollowsPolicy(rs, ts, i, j, k) && OnClock(rs, ts) && PositiveWidths(rs)
  {
    rs := seq(|ts|, n requires 0 <= n < |ts| => PeakRequest(ts, i, j, k, n));
  }

  lemma {:induction false} PeakPolicyShows(ts: seq<int>, i: nat, j: nat, k: nat)
    requires PeakAt(ts, i, j, k)
    ensures !NeverShows(ts)
  {
    var all := PeakPolicy(ts, i, j, k);
    PolicyTracks(all[..k], ts, i, j, k);
    LastDiffers(ts, i, j, k, Run(all[..k]).0, RunPruning(0, all[..k]).0);
    VerdictsOf(0, all, k);
  }

  /** Pruning shows under no policy and limit if and only if no reading is above an earlier and a later one. */
  lemma {:induction false} NeverShowsIffNoPeak(ts: seq<int>)
    ensures NeverShows(ts) <==> !Peak(ts)
  {
    if Peak(ts) {
      var i, j, k :| PeakAt(ts, i, j, k);
      PeakPolicyShows(ts, i, j, k);
    } else {
      SmoothIffNoPeak(ts);
      forall limit: nat, rs | PositiveWidths(rs) && OnClock(rs, ts) ensures RunPruning(limit, rs).1 == Run(rs).1 {
        InvisibleWithoutPeak(limit, rs, ts);
      }
    }
  }

  // ---- The limiter as it updates its map ----

  class Limiter {
    var buckets: Buckets

    constructor ()
      ensures buckets == map[]
    {
      buckets := map[];
    }

    method Prune(now: int)
      modifies this
      ensures buckets == Pruned(old(buckets), now)
    {
      var todo := buckets.Keys;
      while todo != {}
        invariant todo <= buckets.Keys <= old(buckets).Keys
        invariant forall key :: key in buckets ==> buckets[key] == old(buckets)[key]
        invariant forall key :: key in buckets && key !in todo ==> now < buckets[key].resetAt
        invariant forall key :: key in old(buckets) && key !in buckets ==> now >= old(buckets)[key].resetAt
        decreases todo
      {
        var key :| key in todo;
        todo := todo - {key};
        if now >= buckets[key].resetAt {
          buckets := buckets - {key};
        }
      }
    }

    method RateLimit(client: Option<string>, bucket: string, now: int, max: int, windowMs: int)
        returns (verdict: Verdict)
      modifies this
      ensures client.None? ==> verdict == Unavailable && buckets == old(buckets)
      ensures client.Some? ==>
                (buckets, verdict) == DecidePruning(5000, old(buckets),
                                        Request(bucket + ":" + client.value, now, max, windowMs))
    {
      if client.None? {
        return Unavailable;
      }
      if |buckets| > MAX_BUCKETS {
        Prune(now);
      }
      var key := bucket + ":" + client.value;
      if key !in buckets || now >= buckets[key].resetAt {
        buckets := buckets[key := Entry(1, now + windowMs)];
        return Allowed;
      }
      var entry := buckets[key];
      if entry.count >= max {
        return TooMany(RetryAfter(entry.resetAt, now));
      }
      buckets := buckets[key := entry.(count := entry.count + 1)];
      return Allowed;
    }
  }
}
