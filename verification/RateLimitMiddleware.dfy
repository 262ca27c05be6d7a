/** The endpoint classes of the rate-limit middleware and what one client gets through it
    (middlewares/mennanov_ratelimit.go:101-219). */
module RateLimitMiddleware {
  import opened RateWindow
  import opened MemoryLimiter
  import T = LimiterThreads

  datatype EndpointConfig = EndpointConfig(limit: int, window: int, endpoint: string)

  const AUTH_RATE_LIMIT := EndpointConfig(10, MINUTE, "auth")
  const GENERAL_RATE_LIMIT := EndpointConfig(100, MINUTE, "general")
  const ADMIN_RATE_LIMIT := EndpointConfig(50, MINUTE, "admin")

  const AUTH_PATHS: seq<string> := [
    "/uflow/auth/enduser/login", "/uflow/auth/enduser/register", "/uflow/auth/enduser/forgot-password",
    "/uflow/auth/enduser/reset-password", "/uflow/auth/enduser/verify-otp", "/uflow/auth/enduser/resend-otp",
    "/uflow/auth/admin/login", "/uflow/auth/admin/forgot-password", "/uflow/auth/admin/reset-password",
    "/uflow/auth/oidc/", "/uflow/auth/saml/", "/uflow/auth/webauthn/", "/uflow/auth/totp/",
    "/uflow/auth/device/", "/uflow/auth/ciba/", "/api/v1/auth/"]

  predicate IsAuthPath(path: string) {
    exists i :: 0 <= i < |AUTH_PATHS| && AUTH_PATHS[i] <= path
  }

  predicate IsAdminPath(path: string) {
    "/api/v1/admin/" <= path || "/uflow/admin/" <= path
  }

  /** selectRateLimitConfig, by prefix: ten requests a minute for authentication, fifty for administration, a hundred
      for the rest; and the three classes do not share a name. */
  method SelectRateLimitConfig(path: string) returns (config: EndpointConfig)
    ensures config == ConfigFor(path) && config.window == 60_000_000_000
    ensures config.limit == 10 <==> exists i :: 0 <= i < |AUTH_PATHS| && AUTH_PATHS[i] <= path
    ensures config.limit == 50 <==>
              && ("/api/v1/admin/" <= path || "/uflow/admin/" <= path)
              && !(exists i :: 0 <= i < |AUTH_PATHS| && AUTH_PATHS[i] <= path)
    ensures config.limit in {10, 50, 100}
  {
    for i := 0 to |AUTH_PATHS|
      invariant forall j :: 0 <= j < i ==> !(AUTH_PATHS[j] <= path)
    {
      if AUTH_PATHS[i] <= path {
        return AUTH_RATE_LIMIT;
      }
    }
    if IsAdminPath(path) {
      return ADMIN_RATE_LIMIT;
    }
    return GENERAL_RATE_LIMIT;
  }

  function ConfigFor(path: string): EndpointConfig {
    if IsAuthPath(path) then AUTH_RATE_LIMIT
    else if IsAdminPath(path) then ADMIN_RATE_LIMIT
    else GENERAL_RATE_LIMIT
  }

  /** fmt.Sprintf("%s:%s", clientIP, config.Endpoint) */
  function LimiterKey(ip: string, config: EndpointConfig): string {
    ip + ":" + config.endpoint
  }

  predicate KnownConfig(config: EndpointConfig) {
    config in {AUTH_RATE_LIMIT, GENERAL_RATE_LIMIT, ADMIN_RATE_LIMIT}
  }

  /** One key is only ever asked for one client, with one limit and window, whatever the client addresses look like. */
  lemma KeyDeterminesConfig(ip1: string, c1: EndpointConfig, ip2: string, c2: EndpointConfig)
    requires KnownConfig(c1) && KnownConfig(c2)
    requires LimiterKey(ip1, c1) == LimiterKey(ip2, c2)
    ensures c1 == c2 && ip1 == ip2
  {
    var k := LimiterKey(ip1, c1);
    assert k[|k| - 1] == c1.endpoint[|c1.endpoint| - 1];
    assert k[|k| - 1] == c2.endpoint[|c2.endpoint| - 1];
    assert ip1 == k[..|k| - |c1.endpoint| - 1] && ip2 == k[..|k| - |c2.endpoint| - 1];
  }

  // ---------- with the two critical sections of a check interleaved ----------

  predicate EndsIn(key: string, endpoint: string) {
    |endpoint| < |key| && key[|key| - |endpoint| - 1..] == ":" + endpoint
  }

  /** The limit and window of a key, read off its end. */
  function KeyConfig(key: string): RateConfig {
    if EndsIn(key, "auth") then RateConfig(AUTH_RATE_LIMIT.limit, MINUTE)
    else if EndsIn(key, "admin") then RateConfig(ADMIN_RATE_LIMIT.limit, MINUTE)
    else RateConfig(GENERAL_RATE_LIMIT.limit, MINUTE)
  }

  /** That is the configuration of the request that built the key. */
  lemma KeyConfigIs(ip: string, config: EndpointConfig)
    requires KnownConfig(config)
    ensures KeyConfig(LimiterKey(ip, config)) == RateConfig(config.limit, config.window)
  {
    var k := LimiterKey(ip, config);
    assert k[|ip|..] == ":" + config.endpoint;
    assert k[|k| - 1] == config.endpoint[|config.endpoint| - 1];
    assert EndsIn(k, "auth") ==> k[|k| - 1] == (":" + "auth")[4];
    assert EndsIn(k, "admin") ==> k[|k| - 1] == (":" + "admin")[5];
  }

  /** The first critical section of the check of a request. */
  function Arrival(thread: T.Thread, ip: string, path: string, unused: T.EntryId): T.Step {
    T.Fetch(thread, LimiterKey(ip, ConfigFor(path)), unused)
  }

  /** So a request is decided with the limit and window of its own path. */
  lemma ArrivalConfig(thread: T.Thread, ip: string, path: string, unused: T.EntryId)
    ensures KeyConfig(Arrival(thread, ip, path, unused).key)
            == RateConfig(ConfigFor(path).limit, ConfigFor(path).window)
  {
    KeyConfigIs(ip, ConfigFor(path));
  }

  /** In every interleaving of arrivals, decisions and cleanup turns, one client address gets at most
      10 authentication, 50 admin and 100 other requests through in any minute, times one plus the
      entries of its key that cleanup deleted under a waiting request. */
  lemma ClientBounded(clock: int, steps: seq<T.Step>, ip: string, path: string, from: int)
    requires T.CanRun(KeyConfig, T.Start(clock), steps)
    ensures var s, key := T.Run(KeyConfig, T.Start(clock), steps), LimiterKey(ip, ConfigFor(path));
            CountIn(T.StampsOfKey(s.log, key), from, 60_000_000_000)
            <= (if IsAuthPath(path) then 10 else if IsAdminPath(path) then 50 else 100) * (1 + |T.OrphansOf(s, key)|)
  {
    KeyConfigIs(ip, ConfigFor(path));
    T.KeyBounded(KeyConfig, clock, steps, LimiterKey(ip, ConfigFor(path)), from);
  }

  // ---------- with checks that are not interrupted ----------

  datatype Event = Hit(ip: string, path: string, now: int) | Tick(now: int)

  function ToOp(event: Event): Op {
    match event
    case Hit(ip, path, now) =>
      var config := ConfigFor(path);
      Request(LimiterKey(ip, config), config.limit, config.window, now)
    case Tick(now) => Sweep(now)
  }

  function ToOps(events: seq<Event>): (ops: seq<Op>)
    ensures |ops| == |events| && forall i :: 0 <= i < |ops| ==> ops[i] == ToOp(events[i])
  {
    seq(|events|, i requires 0 <= i < |events| => ToOp(events[i]))
  }

  lemma EventsOrderly(events: seq<Event>, key: string) returns (clock: int)
    requires forall i, j :: 0 <= i <= j < |events| ==> events[i].now <= events[j].now
    ensures KeyOrderly(ToOps(events), clock, key, HORIZON)
  {
    var ops := ToOps(events);
    clock := if events == [] then 0 else events[0].now;
    assert Uniform(ops, MINUTE);
    UniformIsOrderly(ops, clock, MINUTE, map[]);
    OrderlyForKey(ops, clock, map[], key);
  }

  /** When each check runs without interruption, a request is let through exactly when fewer than 10, 50 or 100 of the
      same client and class were let through in the minute before, whatever the others do and whenever the cleanup
      runs. */
  lemma LetThroughIff(events: seq<Event>, ip: string, path: string, now: int)
    requires forall i, j :: 0 <= i <= j < |events| ==> events[i].now <= events[j].now
    requires forall i :: 0 <= i < |events| ==> events[i].now <= now
    ensures var m, op := AfterAll(map[], ToOps(events)), ToOp(Hit(ip, path, now));
            Allows(m, op.key, op.limit, op.window, now)
            <==> |Recent(Admitted(map[], ToOps(events), LimiterKey(ip, ConfigFor(path))), now, 60_000_000_000)|
                 < if IsAuthPath(path) then 10 else if IsAdminPath(path) then 50 else 100
  {
    var hit := Hit(ip, path, now);
    var clock := EventsOrderly(events + [hit], LimiterKey(ip, ConfigFor(path)));
    assert ToOps(events + [hit]) == ToOps(events) + [ToOp(hit)];
    AdmitsIff(ToOps(events), clock, ToOp(hit));
  }

  /** When each check runs without interruption, whatever requests arrive and whenever the cleanup runs,
      one client address gets at most 10 authentication, 50 admin and 100 other requests through in any minute. */
  lemma AtomicClientBounded(events: seq<Event>, ip: string, path: string)
    requires forall i, j :: 0 <= i <= j < |events| ==> events[i].now <= events[j].now
    ensures var budget := if IsAuthPath(path) then 10 else if IsAdminPath(path) then 50 else 100;
            Bounded(Admitted(map[], ToOps(events), LimiterKey(ip, ConfigFor(path))), RateConfig(budget, 60_000_000_000))
  {
    var ops, config := ToOps(events), ConfigFor(path);
    var clock := EventsOrderly(events, LimiterKey(ip, config));
    forall op | op in ops && op.Request? && op.key == LimiterKey(ip, config)
      ensures op.limit == config.limit && op.window == config.window
    {
      var i :| 0 <= i < |ops| && ops[i] == op;
      KeyDeterminesConfig(events[i].ip, ConfigFor(events[i].path), ip, config);
    }
    AdmissionsBounded(ops, clock, LimiterKey(ip, config), RateConfig(config.limit, config.window));
  }
}
