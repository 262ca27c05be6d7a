/** Redis pipelines that interleave (middlewares/redis_ratelimit.go:35-49).

    A client stamps its request, the server later trims and counts, and later still adds the
    member.  Stamps are distinct, so a request is named by its stamp.  The trim-and-count pairs
    run in stamp order, and at most `width` requests are between their stamp and their add.
    Then any window holds at most limit + width - 1 admitted requests. */
module RedisPipelines {
  import opened RateWindow

  datatype Server = Server(
    members: set<int>,     // the sorted set
    stamped: set<int>,     // requests not yet counted
    counted: set<int>,     // requests counted but not yet added
    trimmed: int,          // the stamp of the latest trim
    added: set<int>,       // history: every member ever added
    admitted: set<int>)    // history: every request whose count was below the limit

  datatype Step = Stamp(at: int) | TrimCount(at: int) | Add(at: int)

  function Start(before: int): Server {
    Server({}, {}, {}, before, {}, {})
  }

  predicate Enabled(s: Server, width: nat, step: Step) {
    match step
    case Stamp(at) =>
      at !in s.stamped + s.counted + s.added && |s.stamped| + |s.counted| < width
    case TrimCount(at) => at in s.stamped && s.trimmed < at
    case Add(at) => at in s.counted
  }

  function Kept(s: Server, cfg: RateConfig, at: int): set<int> {
    set x | x in s.members && at - cfg.window < x
  }

  function Next(s: Server, cfg: RateConfig, step: Step): Server {
    match step
    case Stamp(at) => s.(stamped := s.stamped + {at})
    case TrimCount(at) =>
      s.(members := Kept(s, cfg, at), stamped := s.stamped - {at}, counted := s.counted + {at}, trimmed := at,
         admitted := if |Kept(s, cfg, at)| < cfg.limit then s.admitted + {at} else s.admitted)
    case Add(at) => s.(members := s.members + {at}, counted := s.counted - {at}, added := s.added + {at})
  }

  predicate CanRun(s: Server, cfg: RateConfig, width: nat, steps: seq<Step>)
    decreases |steps|
  {
    steps == [] || (Enabled(s, width, steps[0]) && CanRun(Next(s, cfg, steps[0]), cfg, width, steps[1..]))
  }

  function Run(s: Server, cfg: RateConfig, steps: seq<Step>): Server
    decreases |steps|
  {
    if steps == [] then s else Run(Next(s, cfg, steps[0]), cfg, steps[1..])
  }

  function InWindow(stamps: set<int>, from: int, span: int): set<int> {
    set x | x in stamps && from <= x < from + span
  }

  ghost predicate Inv(s: Server, cfg: RateConfig, width: nat) {
    && |s.stamped| + |s.counted| <= width
    && s.stamped !! s.counted
    && s.admitted <= s.counted + s.added && s.members <= s.added
    && (forall x :: x in s.counted + s.added ==> x <= s.trimmed)
    && (forall x :: x in s.added && s.trimmed - cfg.window < x ==> x in s.members)
  }

  ghost predicate WindowsBounded(s: Server, cfg: RateConfig, width: nat) {
    forall from :: |InWindow(s.admitted, from, cfg.window)| <= Cap(cfg.limit) + width - 1
  }

  /** The window around a freshly counted request: what is in it was either counted with it or is in flight. */
  lemma CountedOrInFlight(s: Server, cfg: RateConfig, width: nat, at: int, from: int)
    requires Inv(s, cfg, width) && Enabled(s, width, TrimCount(at)) && from <= at < from + cfg.window
    ensures |InWindow(s.admitted, from, cfg.window)| <= |Kept(s, cfg, at)| + width - 1
  {
    var seen, flying := Kept(s, cfg, at), s.counted;
    assert InWindow(s.admitted, from, cfg.window) <= seen + flying;
    SubsetSize(InWindow(s.admitted, from, cfg.window), seen + flying);
    UnionSize(seen, flying);
    assert |s.stamped| >= 1 by { SubsetSize({at}, s.stamped); }
  }

  lemma SubsetSize(a: set<int>, b: set<int>)
    requires a <= b
    ensures |a| <= |b|
  {
    assert b == a + (b - a);
  }

  lemma UnionSize(a: set<int>, b: set<int>)
    ensures |a + b| <= |a| + |b|
  {
    assert |a + b| == |a| + |b| - |a * b|;
  }

  lemma StampKeepsInv(s: Server, cfg: RateConfig, width: nat, at: int)
    requires Inv(s, cfg, width) && Enabled(s, width, Stamp(at))
    ensures Inv(Next(s, cfg, Stamp(at)), cfg, width)
  {
    assert |s.stamped + {at}| == |s.stamped| + 1;
  }

  lemma TrimCountKeepsInv(s: Server, cfg: RateConfig, width: nat, at: int)
    requires Inv(s, cfg, width) && Enabled(s, width, TrimCount(at))
    ensures Inv(Next(s, cfg, TrimCount(at)), cfg, width)
  {
    assert |s.stamped - {at}| == |s.stamped| - 1 && |s.counted + {at}| == |s.counted| + 1;
  }

  lemma AddKeepsInv(s: Server, cfg: RateConfig, width: nat, at: int)
    requires Inv(s, cfg, width) && Enabled(s, width, Add(at))
    ensures Inv(Next(s, cfg, Add(at)), cfg, width)
  {
    SubsetSize(s.counted - {at}, s.counted);
  }

  lemma StepKeepsInv(s: Server, cfg: RateConfig, width: nat, step: Step)
    requires Inv(s, cfg, width) && Enabled(s, width, step)
    ensures Inv(Next(s, cfg, step), cfg, width)
  {
    match step
    case Stamp(at) => StampKeepsInv(s, cfg, width, at);
    case TrimCount(at) => TrimCountKeepsInv(s, cfg, width, at);
    case Add(at) => AddKeepsInv(s, cfg, width, at);
  }

  lemma StepKeepsBound(s: Server, cfg: RateConfig, width: nat, step: Step)
    requires Inv(s, cfg, width) && Enabled(s, width, step) && WindowsBounded(s, cfg, width)
    ensures WindowsBounded(Next(s, cfg, step), cfg, width)
  {
    var s' := Next(s, cfg, step);
    forall from
      ensures |InWindow(s'.admitted, from, cfg.window)| <= Cap(cfg.limit) + width - 1
    {
      if s'.admitted == s.admitted || !(from <= step.at < from + cfg.window) {
        assert InWindow(s'.admitted, from, cfg.window) == InWindow(s.admitted, from, cfg.window);
      } else {
        CountedOrInFlight(s, cfg, width, step.at, from);
        assert InWindow(s'.admitted, from, cfg.window) == InWindow(s.admitted, from, cfg.window) + {step.at};
      }
    }
  }

  lemma {:induction false} RunKeepsBound(s: Server, cfg: RateConfig, width: nat, steps: seq<Step>)
    requires Inv(s, cfg, width) && WindowsBounded(s, cfg, width) && CanRun(s, cfg, width, steps)
    ensures WindowsBounded(Run(s, cfg, steps), cfg, width)
    decreases |steps|
  {
    if steps != [] {
      StepKeepsInv(s, cfg, width, steps[0]);
      StepKeepsBound(s, cfg, width, steps[0]);
      RunKeepsBound(Next(s, cfg, steps[0]), cfg, width, steps[1..]);
    }
  }

  lemma {:induction false} RunKeepsInv(s: Server, cfg: RateConfig, width: nat, steps: seq<Step>)
    requires Inv(s, cfg, width) && CanRun(s, cfg, width, steps)
    ensures Inv(Run(s, cfg, steps), cfg, width)
    decreases |steps|
  {
    if steps != [] {
      StepKeepsInv(s, cfg, width, steps[0]);
      RunKeepsInv(Next(s, cfg, steps[0]), cfg, width, steps[1..]);
    }
  }

  /** In every run a request is admitted exactly when fewer than `limit` of the requests added so far lie in the window
      before it, and just those are left in the sorted set. */
  lemma AdmitsByAdded(cfg: RateConfig, width: nat, before: int, steps: seq<Step>, at: int)
    requires CanRun(Start(before), cfg, width, steps)
    requires Enabled(Run(Start(before), cfg, steps), width, TrimCount(at))
    ensures var s := Run(Start(before), cfg, steps);
            var s', recent := Next(s, cfg, TrimCount(at)), set x | x in s.added && at - cfg.window < x;
            && s'.members == recent
            && s'.admitted == s.admitted + if |recent| < cfg.limit then {at} else {}
  {
    var s := Run(Start(before), cfg, steps);
    RunKeepsInv(Start(before), cfg, width, steps);
    assert Kept(s, cfg, at) == set x | x in s.added && at - cfg.window < x;
  }

  /** Any window holds at most limit + width - 1 admitted requests; one pipeline at a time gives the limit itself. */
  lemma PipelinesBounded(cfg: RateConfig, width: nat, before: int, steps: seq<Step>, from: int)
    requires 1 <= width && CanRun(Start(before), cfg, width, steps)
    ensures |InWindow(Run(Start(before), cfg, steps).admitted, from, cfg.window)| <= Cap(cfg.limit) + width - 1
  {
    assert forall f :: InWindow({}, f, cfg.window) == {};
    RunKeepsBound(Start(before), cfg, width, steps);
  }

  // ---------- the bound is reached ----------

  /** The stamps after `low`, up to `high`. */
  function Span(low: int, high: int): set<int> {
    set x | low < x <= high && Within(low, x, high)
  }

  predicate Within(low: int, x: int, high: int) {
    low < x <= high
  }

  lemma {:induction false} SpanSize(low: int, high: int)
    requires low <= high
    ensures |Span(low, high)| == high - low
    decreases high - low
  {
    if low < high {
      SpanSize(low, high - 1);
      assert Span(low, high) == Span(low, high - 1) + {high};
    } else {
      assert Span(low, high) == {};
    }
  }

  /** `n` requests are done, the next `counted` are counted and not added, and more, up to `stamped`, are stamped. */
  function At(n: nat, counted: int, stamped: int): Server {
    Server(Span(0, n), Span(counted, stamped), Span(n, counted), counted, Span(0, n), Span(0, counted))
  }

  lemma Cons(s: Server, cfg: RateConfig, width: nat, step: Step, rest: seq<Step>)
    requires Enabled(s, width, step) && CanRun(Next(s, cfg, step), cfg, width, rest)
    ensures CanRun(s, cfg, width, [step] + rest) && Run(s, cfg, [step] + rest) == Run(Next(s, cfg, step), cfg, rest)
  {
    assert ([step] + rest)[1..] == rest;
  }

  lemma StampNext(n: nat, counted: int, stamped: int, cfg: RateConfig, width: nat)
    requires n <= counted <= stamped < n + width
    ensures Enabled(At(n, counted, stamped), width, Stamp(stamped + 1))
    ensures Next(At(n, counted, stamped), cfg, Stamp(stamped + 1)) == At(n, counted, stamped + 1)
  {
    SpanSize(n, counted);
    SpanSize(counted, stamped);
    assert Span(counted, stamped) + {stamped + 1} == Span(counted, stamped + 1);
  }

  lemma CountNext(n: nat, counted: int, stamped: int, cfg: RateConfig, width: nat)
    requires n <= counted < stamped && n < cfg.limit && counted + 1 <= cfg.window
    ensures Enabled(At(n, counted, stamped), width, TrimCount(counted + 1))
    ensures Next(At(n, counted, stamped), cfg, TrimCount(counted + 1)) == At(n, counted + 1, stamped)
  {
    var s, at := At(n, counted, stamped), counted + 1;
    assert Kept(s, cfg, at) == Span(0, n);
    SpanSize(0, n);
    assert Span(counted, stamped) - {at} == Span(at, stamped);
    assert Span(n, counted) + {at} == Span(n, at) && Span(0, counted) + {at} == Span(0, at);
  }

  lemma AddNext(n: nat, cfg: RateConfig, width: nat)
    ensures Enabled(At(n, n + 1, n + 1), width, Add(n + 1))
    ensures Next(At(n, n + 1, n + 1), cfg, Add(n + 1)) == At(n + 1, n + 1, n + 1)
  {
    assert Span(0, n) + {n + 1} == Span(0, n + 1);
    assert Span(n, n + 1) - {n + 1} == Span(n + 1, n + 1);
  }

  lemma {:induction false} CountAll(n: nat, counted: int, stamped: int, cfg: RateConfig, width: nat)
    returns (steps: seq<Step>)
    requires n <= counted <= stamped <= cfg.window && n < cfg.limit
    ensures CanRun(At(n, counted, stamped), cfg, width, steps)
    ensures Run(At(n, counted, stamped), cfg, steps) == At(n, stamped, stamped)
    decreases stamped - counted
  {
    if counted == stamped {
      steps := [];
    } else {
      CountNext(n, counted, stamped, cfg, width);
      steps := CountAll(n, counted + 1, stamped, cfg, width);
      Cons(At(n, counted, stamped), cfg, width, TrimCount(counted + 1), steps);
      steps := [TrimCount(counted + 1)] + steps;
    }
  }

  lemma {:induction false} StampAll(n: nat, stamped: int, cfg: RateConfig, width: nat, goal: int)
    returns (steps: seq<Step>)
    requires n <= stamped <= goal <= n + width
    ensures CanRun(At(n, n, stamped), cfg, width, steps)
    ensures Run(At(n, n, stamped), cfg, steps) == At(n, n, goal)
    decreases goal - stamped
  {
    if stamped == goal {
      steps := [];
    } else {
      StampNext(n, n, stamped, cfg, width);
      steps := StampAll(n, stamped + 1, cfg, width, goal);
      Cons(At(n, n, stamped), cfg, width, Stamp(stamped + 1), steps);
      steps := [Stamp(stamped + 1)] + steps;
    }
  }

  lemma {:induction false} Append(s: Server, cfg: RateConfig, width: nat, a: seq<Step>, b: seq<Step>)
    requires CanRun(s, cfg, width, a) && CanRun(Run(s, cfg, a), cfg, width, b)
    ensures CanRun(s, cfg, width, a + b) && Run(s, cfg, a + b) == Run(Run(s, cfg, a), cfg, b)
    decreases |a|
  {
    if a == [] {
      assert a + b == b;
    } else {
      Append(Next(s, cfg, a[0]), cfg, width, a[1..], b);
      assert (a + b)[1..] == a[1..] + b;
    }
  }

  /** Stamps up to `goal`, then counts them all. */
  lemma StampAndCount(n: nat, cfg: RateConfig, width: nat, goal: int) returns (steps: seq<Step>)
    requires n <= goal <= n + width && goal <= cfg.window && n < cfg.limit
    ensures CanRun(At(n, n, n), cfg, width, steps)
    ensures Run(At(n, n, n), cfg, steps) == At(n, goal, goal)
  {
    steps := StampAll(n, n, cfg, width, goal);
    var counts := CountAll(n, n, goal, cfg, width);
    Append(At(n, n, n), cfg, width, steps, counts);
    steps := steps + counts;
  }

  /** One request at a time until one place is left, then `width` at once. */
  lemma {:induction false} FillUp(n: nat, cfg: RateConfig, width: nat) returns (steps: seq<Step>)
    requires n < cfg.limit && 1 <= width && cfg.limit - 1 + width <= cfg.window
    ensures CanRun(At(n, n, n), cfg, width, steps)
    ensures Run(At(n, n, n), cfg, steps).admitted == Span(0, cfg.limit - 1 + width)
    decreases cfg.limit - n
  {
    if n == cfg.limit - 1 {
      steps := StampAndCount(n, cfg, width, n + width);
    } else {
      steps := FillUp(n + 1, cfg, width);
      StampNext(n, n, n, cfg, width);
      CountNext(n, n, n + 1, cfg, width);
      AddNext(n, cfg, width);
      Cons(At(n, n + 1, n + 1), cfg, width, Add(n + 1), steps);
      steps := [Add(n + 1)] + steps;
      Cons(At(n, n, n + 1), cfg, width, TrimCount(n + 1), steps);
      steps := [TrimCount(n + 1)] + steps;
      Cons(At(n, n, n), cfg, width, Stamp(n + 1), steps);
      steps := [Stamp(n + 1)] + steps;
    }
  }

  /** For every limit and width, if the window has that many stamps, some run fills the bound. */
  lemma PipelinesTight(cfg: RateConfig, width: nat) returns (steps: seq<Step>)
    requires 1 <= cfg.limit && 1 <= width && cfg.limit - 1 + width <= cfg.window
    ensures CanRun(Start(0), cfg, width, steps)
    ensures |InWindow(Run(Start(0), cfg, steps).admitted, 1, cfg.window)| == cfg.limit + width - 1
  {
    assert Span(0, 0) == {} && At(0, 0, 0) == Start(0);
    steps := FillUp(0, cfg, width);
    assert InWindow(Span(0, cfg.limit - 1 + width), 1, cfg.window) == Span(0, cfg.limit - 1 + width);
    SpanSize(0, cfg.limit - 1 + width);
  }
}
