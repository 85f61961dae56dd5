/** The in-memory limiter limits: how many requests of one client pass between an entry's opening and its reset. */
module LimiterSpans {
  import opened Basics
  import opened Windows
  import opened MemoryLimiter

  /** How many of the requests from p up to q are for this key. */
  function Asked(rs: seq<Request>, key: string, p: nat, q: nat): nat
    requires q <= |rs|
  {
    if q <= p then 0 else Asked(rs, key, p, q - 1) + (if rs[q - 1].key == key then 1 else 0)
  }

  /** How many of them were allowed. */
  function Passed(rs: seq<Request>, vs: seq<Verdict>, key: string, p: nat, q: nat): nat
    requires q <= |rs| == |vs|
  {
    if q <= p then 0
    else Passed(rs, vs, key, p, q - 1) + (if rs[q - 1].key == key && vs[q - 1] == Allowed then 1 else 0)
  }

  /** Request p finds no entry of its key, or one that has reset. */
  predicate Opens(rs: seq<Request>, p: nat)
    requires p < |rs|
  {
    var b := Run(rs[..p]).0;
    rs[p].key !in b || rs[p].now >= b[rs[p].key].resetAt
  }

  function ResetAt(rs: seq<Request>, p: nat): int
    requires p < |rs|
  {
    rs[p].now + rs[p].windowMs
  }

  /** From request p up to q the key is used with one max, and not after the reset of the entry that p opens. */
  predicate Span(rs: seq<Request>, key: string, p: nat, q: nat) {
    && p < q <= |rs| && rs[p].key == key
    && forall i :: p < i < q && rs[i].key == key ==> rs[i].max == rs[p].max && rs[i].now < ResetAt(rs, p)
  }

  lemma {:induction false} VerdictAt(rs: seq<Request>, i: nat)
    requires i < |rs|
    ensures var (b, v) := Decide(Run(rs[..i]).0, rs[i]); Run(rs).1[i] == v && Run(rs[..i + 1]).0 == b
  {
    VerdictsStay(0, rs, i + 1);
    assert rs[..i + 1][..i] == rs[..i];
    assert Run(rs).1[i] == Run(rs).1[..i + 1][i];
  }

  /** The first request of a span is allowed, and its entry resets one window later. */
  lemma {:induction false} SpanOpens(rs: seq<Request>, p: nat)
    requires p < |rs| && Opens(rs, p)
    ensures Run(rs).1[p] == Allowed
    ensures var b := Run(rs[..p + 1]).0; rs[p].key in b && b[rs[p].key] == Entry(1, ResetAt(rs, p))
  {
    VerdictAt(rs, p);
  }

  /** One request while the entry of the key, which has seen so many, is live. */
  lemma {:induction false} CountsOneMore(b: Buckets, r: Request, key: string, max: int, seen: nat, resetAt: int)
    requires seen >= 1 && key in b && b[key] == Entry(Min(Max(1, max), seen), resetAt)
    requires r.key == key ==> r.max == max && r.now < resetAt
    ensures var (b', v) := Decide(b, r);
            if r.key == key then
              && key in b' && b'[key] == Entry(Min(Max(1, max), seen + 1), resetAt)
              && (v == Allowed <==> seen < Max(1, max))
            else key in b' && b'[key] == b[key]
  {
  }

  /** The entry counts the requests of the span up to max, and just as many have passed. */
  lemma {:induction false} SpanCounts(rs: seq<Request>, key: string, p: nat, q: nat)
    requires Span(rs, key, p, q) && Opens(rs, p)
    ensures var b := Run(rs[..q]).0;
            var n := Min(Max(1, rs[p].max), Asked(rs, key, p, q));
            && key in b && b[key] == Entry(n, ResetAt(rs, p))
            && Asked(rs, key, p, q) >= 1 && Passed(rs, Run(rs).1, key, p, q) == n
    decreases q
  {
    if q == p + 1 {
      SpanOpens(rs, p);
      assert Asked(rs, key, p, p) == 0 && Passed(rs, Run(rs).1, key, p, p) == 0;
    } else {
      SpanCounts(rs, key, p, q - 1);
      VerdictAt(rs, q - 1);
      CountsOneMore(Run(rs[..q - 1]).0, rs[q - 1], key, rs[p].max, Asked(rs, key, p, q - 1), ResetAt(rs, p));
    }
  }

  /**
   * Between an entry's opening and its reset, exactly the first max requests of the client pass,
   * whatever other clients do; a max below one still lets the opening request through.
   */
  lemma {:induction false} LimiterLimits(rs: seq<Request>, key: string, p: nat, q: nat)
    requires Span(rs, key, p, q) && Opens(rs, p)
    ensures Passed(rs, Run(rs).1, key, p, q) == Min(Max(1, rs[p].max), Asked(rs, key, p, q))
    ensures forall i :: p <= i < q && rs[i].key == key ==>
              (Run(rs).1[i] == Allowed <==> Asked(rs, key, p, i) < Max(1, rs[p].max))
  {
    SpanCounts(rs, key, p, q);
    forall i | p <= i < q && rs[i].key == key
      ensures Run(rs).1[i] == Allowed <==> Asked(rs, key, p, i) < Max(1, rs[p].max)
    {
      if i == p {
        SpanOpens(rs, p);
      } else {
        SpanCounts(rs, key, p, i);
        VerdictAt(rs, i);
        CountsOneMore(Run(rs[..i]).0, rs[i], key, rs[p].max, Asked(rs, key, p, i), ResetAt(rs, p));
      }
    }
  }

  /** Every refusal tells the whole seconds left until the reset, rounded up. */
  lemma {:induction false} RefusalsTellTheReset(rs: seq<Request>, key: string, p: nat, q: nat, i: nat)
    requires Span(rs, key, p, q) && Opens(rs, p) && p <= i < q && rs[i].key == key && Run(rs).1[i] != Allowed
    ensures var v := Run(rs).1[i];
            && v.TooMany?
            && 1000 * (v.retryAfter - 1) < ResetAt(rs, p) - rs[i].now <= 1000 * v.retryAfter
  {
    VerdictAt(rs, i);
    if i == p {
      SpanOpens(rs, p);
    } else {
      SpanCounts(rs, key, p, i);
      assert 1000 * (CeilSeconds(ResetAt(rs, p) - rs[i].now)) >= ResetAt(rs, p) - rs[i].now > 0;
    }
  }

  // ---- When spans begin ----

  lemma {:induction false} EntriesWereAsked(rs: seq<Request>, key: string)
    requires forall i :: 0 <= i < |rs| ==> rs[i].key != key
    ensures key !in Run(rs).0
  {
    if rs != [] {
      EntriesWereAsked(rs[..|rs| - 1], key);
    }
  }

  /** A client's first request opens its first span. */
  lemma {:induction false} FirstRequestOpens(rs: seq<Request>, p: nat)
    requires p < |rs| && forall i :: 0 <= i < p ==> rs[i].key != rs[p].key
    ensures Opens(rs, p)
  {
    EntriesWereAsked(rs[..p], rs[p].key);
  }

  /** The first request at or after the reset opens the next. */
  lemma {:induction false} ResetOpens(rs: seq<Request>, key: string, p: nat, q: nat)
    requires Span(rs, key, p, q) && Opens(rs, p) && q < |rs| && rs[q].key == key && rs[q].now >= ResetAt(rs, p)
    ensures Opens(rs, q)
  {
    SpanCounts(rs, key, p, q);
  }

  /** With its prune the limiter limits just so, on every clock without a peak. */
  lemma {:induction false} PruningLimiterLimits(
      limit: nat, rs: seq<Request>, ts: seq<int>, key: string, p: nat, q: nat)
    requires PositiveWidths(rs) && OnClock(rs, ts) && !Peak(ts)
    requires Span(rs, key, p, q) && Opens(rs, p)
    ensures Passed(rs, RunPruning(limit, rs).1, key, p, q) == Min(Max(1, rs[p].max), Asked(rs, key, p, q))
  {
    SmoothIffNoPeak(ts);
    InvisibleWithoutPeak(limit, rs, ts);
    LimiterLimits(rs, key, p, q);
  }
}
