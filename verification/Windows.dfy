/** Aligned fixed windows and the Retry-After arithmetic every limiter here shares. */
module Windows {
  import opened Basics

  const DAY_MS: nat := 24 * 60 * 60 * 1000

  lemma {:induction false} MultipleOf(q: nat, width: nat)
    requires width > 0
    ensures (q * width) % width == 0
  {
    var x := q * width;
    var d := q - x / width;
    assert d * width == x % width;
    assert d >= 1 ==> d * width >= width;
    assert d <= -1 ==> d * width <= -1 * width;
  }

  /** Math.floor(t / width) * width. */
  function Align(t: nat, width: nat): (w: nat)
    requires width > 0
    ensures w <= t < w + width && w % width == 0
  {
    MultipleOf(t / width, width);
    assert t == t / width * width + t % width;
    t / width * width
  }

  lemma {:induction false} NextMultiple(w: nat, width: nat)
    requires width > 0 && w % width == 0
    ensures (w + width) % width == 0
  {
    var q := w / width;
    assert w + width == (q + 1) * width;
    MultipleOf(q + 1, width);
  }

  /** Two multiples of width less than width apart are equal. */
  lemma {:induction false} MultiplesApart(a: nat, b: nat, width: nat)
    requires width > 0 && a % width == 0 && b % width == 0
    requires a < b
    ensures a + width <= b
  {
    var p, q := a / width, b / width;
    assert a == p * width && b == q * width;
    assert q > p;
    assert (p + 1) * width <= q * width;
  }

  /** Align(t) is the only multiple of width whose window holds t. */
  lemma {:induction false} AlignUnique(t: nat, width: nat, w: nat)
    requires width > 0 && w % width == 0 && w <= t < w + width
    ensures Align(t, width) == w
  {
    var a := Align(t, width);
    if a < w {
      MultiplesApart(a, w, width);
    } else if w < a {
      MultiplesApart(w, a, width);
    }
  }

  lemma {:induction false} AlignMonotone(s: nat, t: nat, width: nat)
    requires width > 0 && s <= t
    ensures Align(s, width) <= Align(t, width)
  {
    if Align(t, width) < Align(s, width) {
      MultiplesApart(Align(t, width), Align(s, width), width);
    }
  }

  /** A time falls in a strictly newer window than w exactly when it reaches the end of w. */
  lemma {:induction false} NewerWindow(t: nat, width: nat, w: nat)
    requires width > 0 && w % width == 0
    ensures Align(t, width) > w <==> t >= w + width
  {
    var a := Align(t, width);
    if a > w {
      MultiplesApart(w, a, width);
    }
  }

  /** Math.ceil(ms / 1000); Dafny's division by a positive number rounds down. */
  function CeilSeconds(ms: int): (s: int)
    ensures 1000 * (s - 1) < ms <= 1000 * s
  {
    (ms + 999) / 1000
  }

  /** Math.max(1, Math.ceil((resetAt - now) / 1000)). */
  function RetryAfter(resetAt: int, now: int): (r: nat)
    ensures r >= 1
  {
    Max(1, CeilSeconds(resetAt - now))
  }

  /**
   * A denied request reads its Retry-After from the stored row. That delay is the least one that
   * works: waiting s seconds reaches a window newer than the row's exactly when s is at least it.
   */
  lemma {:induction false} RetryAfterIsLeastDelay(rowWindow: nat, width: nat, now: nat, s: nat)
    requires width > 0 && rowWindow % width == 0
    requires Align(now, width) <= rowWindow
    ensures Align(now + 1000 * s, width) > rowWindow <==> s >= RetryAfter(rowWindow + width, now)
  {
    NewerWindow(now, width, rowWindow);
    NewerWindow(now + 1000 * s, width, rowWindow);
    var c := CeilSeconds(rowWindow + width - now);
    assert c >= 1;
    if s >= c {
      assert 1000 * s >= 1000 * c;
    } else {
      assert 1000 * s <= 1000 * (c - 1);
    }
  }

  /** The faucet's variant counts from the caller's clock instead of the stored row. */
  function FaucetDayRetryAfter(now: nat): (r: nat)
    ensures r >= 1
  {
    RetryAfter(Align(now, DAY_MS) + DAY_MS, now)
  }

  /**
   * The faucet's delay leaves the denying row's window exactly when that row sits in the caller's
   * own day. A row kept newer across a clock rollback still denies after the wait.
   */
  lemma {:induction false} FaucetDelayWorksIffNoRollback(rowWindow: nat, now: nat)
    requires rowWindow % DAY_MS == 0 && Align(now, DAY_MS) <= rowWindow
    ensures Align(now + 1000 * FaucetDayRetryAfter(now), DAY_MS) > rowWindow
       <==> rowWindow == Align(now, DAY_MS)
  {
    var home := Align(now, DAY_MS);
    var r := FaucetDayRetryAfter(now);
    RetryAfterIsLeastDelay(home, DAY_MS, now, r);
    if rowWindow != home {
      MultiplesApart(home, rowWindow, DAY_MS);
      assert r == CeilSeconds(home + DAY_MS - now);
      NewerWindow(now + 1000 * r, DAY_MS, rowWindow);
    }
  }

  /** It ends in the very next day. */
  lemma {:induction false} FaucetDelayReachesNextDay(now: nat)
    ensures Align(now + 1000 * FaucetDayRetryAfter(now), 86_400_000) == Align(now, 86_400_000) + 86_400_000
  {
    var home := Align(now, DAY_MS);
    MultipleOf(now / DAY_MS + 1, DAY_MS);
    assert home + DAY_MS == (now / DAY_MS + 1) * DAY_MS;
    AlignUnique(now + 1000 * FaucetDayRetryAfter(now), DAY_MS, home + DAY_MS);
  }
}
