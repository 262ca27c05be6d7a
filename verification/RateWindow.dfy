/** Sliding windows over lists of admission stamps.

    Both limiters of the repository keep the stamps `ts` with `now - ts < window`
    and compare their number with a limit.  This module holds that filter, the
    number of stamps in a half-open interval, and the facts the limiters share. */
module RateWindow {

  /** time.Duration counts nanoseconds. */
  const SECOND: int := 1_000_000_000
  const MINUTE: int := 60 * SECOND

  /** The horizon of the background cleanup of the in-memory store. */
  const HORIZON: int := 2 * MINUTE

  datatype RateConfig = RateConfig(limit: int, window: int)

  /** The stamps of `log` still inside the window that ends at `now`, in order. */
  function Recent(log: seq<int>, now: int, window: int): seq<int> {
    if log == [] then [] else
      var last := log[|log| - 1];
      Recent(log[..|log| - 1], now, window) + if now - last < window then [last] else []
  }

  /** How many stamps of `log` lie in [from, from + span). */
  function CountIn(log: seq<int>, from: int, span: int): nat {
    if log == [] then 0 else
      var last := log[|log| - 1];
      CountIn(log[..|log| - 1], from, span) + if from <= last < from + span then 1 else 0
  }

  /** A limit of zero or less admits nothing. */
  function Cap(limit: int): nat {
    if limit < 0 then 0 else limit
  }

  /** `log` has at most Cap(limit) stamps in every half-open interval of length `window`. */
  ghost predicate Bounded(log: seq<int>, cfg: RateConfig) {
    forall from :: CountIn(log, from, cfg.window) <= Cap(cfg.limit)
  }

  /** From `clock` on, and for every window up to `widest`, the pruned list `kept`
      and the full list `log` look the same. */
  ghost predicate SameView(kept: seq<int>, log: seq<int>, clock: int, widest: int) {
    forall t, w :: clock <= t && w <= widest ==> SameAt(kept, log, t, w)
  }

  predicate SameAt(kept: seq<int>, log: seq<int>, t: int, w: int) {
    Recent(kept, t, w) == Recent(log, t, w)
  }

  lemma RecentSnoc(log: seq<int>, x: int, now: int, window: int)
    ensures Recent(log + [x], now, window) == Recent(log, now, window) + if now - x < window then [x] else []
  {
    assert (log + [x])[..|log|] == log;
  }

  lemma CountSnoc(log: seq<int>, x: int, from: int, span: int)
    ensures CountIn(log + [x], from, span) == CountIn(log, from, span) + if from <= x < from + span then 1 else 0
  {
    assert (log + [x])[..|log|] == log;
  }

  /** Pruning with an earlier clock and a wider window is invisible to a later, narrower look. */
  lemma {:induction false} RecentAbsorbs(log: seq<int>, now: int, window: int, t: int, w: int)
    requires now <= t && w <= window
    ensures Recent(Recent(log, now, window), t, w) == Recent(log, t, w)
  {
    if log != [] {
      var init, last := log[..|log| - 1], log[|log| - 1];
      RecentAbsorbs(init, now, window, t, w);
      RecentSnoc(Recent(init, now, window), last, t, w);
      assert now - last >= window ==> Recent(log, now, window) == Recent(init, now, window);
    }
  }

  /** Pruning keeps the view. */
  lemma PruneKeepsView(kept: seq<int>, log: seq<int>, clock: int, widest: int, now: int, window: int, t0: int, w0: int)
    requires SameView(kept, log, clock, widest)
    requires now <= t0 && clock <= t0 && w0 <= window && w0 <= widest
    ensures SameView(Recent(kept, now, window), log, t0, w0)
  {
    forall t, w | t0 <= t && w <= w0
      ensures SameAt(Recent(kept, now, window), log, t, w)
    {
      assert SameAt(kept, log, t, w);
      RecentAbsorbs(kept, now, window, t, w);
    }
  }

  lemma WaitKeepsView(kept: seq<int>, log: seq<int>, clock: int, wide: int, now: int)
    requires SameView(kept, log, clock, wide) && clock <= now
    ensures SameView(kept, log, now, wide)
  {
  }

  lemma SnocKeepsView(kept: seq<int>, log: seq<int>, clock: int, widest: int, x: int)
    requires SameView(kept, log, clock, widest)
    ensures SameView(kept + [x], log + [x], clock, widest)
  {
    forall t, w | clock <= t && w <= widest
      ensures SameAt(kept + [x], log + [x], t, w)
    {
      assert SameAt(kept, log, t, w);
      RecentSnoc(kept, x, t, w);
      RecentSnoc(log, x, t, w);
    }
  }

  /** Every stamp of an interval that reaches past the start of the window is recent. */
  lemma {:induction false} CountWithinRecent(log: seq<int>, from: int, span: int, now: int, window: int)
    requires now - window < from
    ensures CountIn(log, from, span) <= |Recent(log, now, window)|
  {
    if log != [] {
      CountWithinRecent(log[..|log| - 1], from, span, now, window);
    }
  }

  /** Admitting at `now`, with fewer than `limit` recent stamps, keeps the bound. */
  lemma AdmitKeepsBound(log: seq<int>, cfg: RateConfig, now: int)
    requires Bounded(log, cfg)
    requires |Recent(log, now, cfg.window)| < cfg.limit
    ensures Bounded(log + [now], cfg)
  {
    forall from
      ensures CountIn(log + [now], from, cfg.window) <= Cap(cfg.limit)
    {
      CountSnoc(log, now, from, cfg.window);
      if from <= now < from + cfg.window {
        CountWithinRecent(log, from, cfg.window, now, cfg.window);
      }
    }
  }
}
