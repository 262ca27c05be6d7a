/** The five-minute cache of workspace signing keys (middlewares/spiffe_auth.go:162-232).  Times are
    nanoseconds; a key is whatever the parser makes of a modulus and an exponent. */
module JwksCache {
  import opened Common

  const TTL: nat := 300_000_000_000

  type Key = nat

  datatype Entry = Entry(key: Key, fetchedAt: nat)

  datatype Jwk = Jwk(kty: string, n: string, e: string)

  /** What the bundle endpoint answers. */
  datatype Response = Unreachable | Undecodable | Answer(status: nat, keys: seq<Jwk>)

  /** A live entry for the workspace. */
  function Lookup(cache: map<string, Entry>, workspace: string, now: nat): Option<Key> {
    if workspace in cache && now - cache[workspace].fetchedAt < TTL then Some(cache[workspace].key) else None
  }

  class SpiffeKeys {
    var cache: map<string, Entry>

    constructor ()
      ensures cache == map[]
    {
      cache := map[];
    }

    /** One call with nothing else running: `asked` is the time of the lookup and `done` that of the
        store.  A failed fetch leaves the cache as it was, and a hit does not fetch. */
    method GetPublicKey(workspace: string, asked: nat, response: Response, parse: (string, string) -> Option<Key>,
                        done: nat)
      returns (key: Option<Key>)
      requires asked <= done
      modifies this
      ensures Lookup(old(cache), workspace, asked).Some?
              ==> key == Lookup(old(cache), workspace, asked) && cache == old(cache)
      ensures Lookup(old(cache), workspace, asked).None? ==>
                (key.Some? <==>
                   && response.Answer? && response.status == 200 && |response.keys| > 0
                   && response.keys[0].kty == "RSA" && parse(response.keys[0].n, response.keys[0].e).Some?)
      ensures Lookup(old(cache), workspace, asked).None? && key.Some? ==>
                key == parse(response.keys[0].n, response.keys[0].e)
      ensures Lookup(old(cache), workspace, asked).None? && key.None? ==> cache == old(cache)
      ensures Lookup(old(cache), workspace, asked).None? && key.Some? ==>
                && (forall t :: done <= t < done + 300_000_000_000 ==> Lookup(cache, workspace, t) == key)
                && (forall t :: t >= done + 300_000_000_000 ==> Lookup(cache, workspace, t).None?)
                && cache - {workspace} == old(cache) - {workspace}
    {
      if workspace in cache && asked - cache[workspace].fetchedAt < TTL {
        return Some(cache[workspace].key);
      }
      if response.Unreachable? || response.Undecodable? || response.status != 200 {
        return None;
      }
      if |response.keys| == 0 {
        return None;
      }
      var k := response.keys[0];
      if k.kty != "RSA" {
        return None;
      }
      var pubKey := parse(k.n, k.e);
      if pubKey.None? {
        return None;
      }
      cache := cache[workspace := Entry(pubKey.value, done)];
      return pubKey;
    }
  }

  // ---------- concurrent fills ----------

  /** A key the endpoint served, or a call returned, for a workspace. */
  datatype Event = Event(workspace: string, key: Key, at: nat)

  datatype Call =
    | Found(found: Event)      // a hit, at the time of its lookup
    | Asking(workspace: string)
    | Got(served: Event)
    | Kept(served: Event)

  /** `storeDelay`, `hitDelay` and `returnDelay` record the longest time seen from serving to storing,
      from a hit's lookup to its return, and from serving to returning by the call that fetched. */
  datatype State = State(
    now: nat, cache: map<string, Entry>, calls: map<nat, Call>,
    served: seq<Event>, returned: seq<Event>, storeDelay: nat, hitDelay: nat, returnDelay: nat)

  datatype Step =
    | Tick(elapsed: nat)
    | Hit(p: nat, workspace: string)
    | Miss(p: nat, workspace: string)
    | Serve(p: nat, key: Key)
    | Fail(p: nat)
    | Store(p: nat)
    | Return(p: nat)

  predicate Enabled(s: State, e: Step) {
    match e
    case Tick(_) => true
    case Hit(p, w) => Lookup(s.cache, w, s.now).Some? && p !in s.calls
    case Miss(p, w) => Lookup(s.cache, w, s.now).None? && p !in s.calls
    case Serve(p, _) => p in s.calls && s.calls[p].Asking?
    case Fail(p) => p in s.calls && (s.calls[p].Asking? || s.calls[p].Got?)
    case Store(p) => p in s.calls && s.calls[p].Got?
    case Return(p) => p in s.calls && (s.calls[p].Kept? || s.calls[p].Found?)
  }

  function Max(a: nat, b: nat): nat {
    if a < b then b else a
  }

  function Since(s: State, e: Event): nat {
    if e.at <= s.now then s.now - e.at else 0
  }

  function Next(s: State, e: Step): State
    requires Enabled(s, e)
  {
    match e
    case Tick(elapsed) => s.(now := s.now + elapsed)
    case Hit(p, w) => s.(calls := s.calls[p := Found(Event(w, s.cache[w].key, s.now))])
    case Miss(p, w) => s.(calls := s.calls[p := Asking(w)])
    case Serve(p, key) =>
      var served := Event(s.calls[p].workspace, key, s.now);
      s.(calls := s.calls[p := Got(served)], served := s.served + [served])
    case Fail(p) => s.(calls := s.calls - {p})
    case Store(p) =>
      var served := s.calls[p].served;
      s.(cache := s.cache[served.workspace := Entry(served.key, s.now)],
         calls := s.calls[p := Kept(served)], storeDelay := Max(s.storeDelay, Since(s, served)))
    case Return(p) =>
      var call := s.calls[p];
      var from := if call.Found? then call.found else call.served;
      var s1 := s.(calls := s.calls - {p}, returned := s.returned + [Event(from.workspace, from.key, s.now)]);
      if call.Found? then s1.(hitDelay := Max(s.hitDelay, Since(s, from)))
        else s1.(returnDelay := Max(s.returnDelay, Since(s, from)))
  }

  predicate CanRun(s: State, steps: seq<Step>)
    decreases |steps|
  {
    steps == [] || (Enabled(s, steps[0]) && CanRun(Next(s, steps[0]), steps[1..]))
  }

  function Run(s: State, steps: seq<Step>): State
    requires CanRun(s, steps)
    decreases |steps|
  {
    if steps == [] then s else Run(Next(s, steps[0]), steps[1..])
  }

  // ---------- calls ----------

  /** How many calls a run starts, returns from and fails. */
  function Started(steps: seq<Step>): nat {
    if steps == [] then 0 else (if steps[0].Hit? || steps[0].Miss? then 1 else 0) + Started(steps[1..])
  }

  function Returned(steps: seq<Step>): nat {
    if steps == [] then 0 else (if steps[0].Return? then 1 else 0) + Returned(steps[1..])
  }

  function Failed(steps: seq<Step>): nat {
    if steps == [] then 0 else (if steps[0].Fail? then 1 else 0) + Failed(steps[1..])
  }

  lemma StepCalls(s: State, e: Step)
    requires Enabled(s, e)
    ensures var s' := Next(s, e);
            && |s.calls| + (if e.Hit? || e.Miss? then 1 else 0)
               == |s'.calls| + (if e.Return? || e.Fail? then 1 else 0)
            && |s'.returned| == |s.returned| + if e.Return? then 1 else 0
  {
    if !e.Tick? {
      var calls' := Next(s, e).calls;
      MapSizes(s.calls, e.p, if e.p in calls' then calls'[e.p] else Asking(""));
    }
  }

  /** Every call that starts returns one key, fails, or is still under way. */
  lemma {:induction false} CallsConserved(s: State, steps: seq<Step>)
    requires CanRun(s, steps)
    ensures var s' := Run(s, steps);
            && |s.calls| + Started(steps) == |s'.calls| + Returned(steps) + Failed(steps)
            && |s'.returned| == |s.returned| + Returned(steps)
    decreases |steps|
  {
    if steps != [] {
      StepCalls(s, steps[0]);
      CallsConserved(Next(s, steps[0]), steps[1..]);
    }
  }

  const START := State(0, map[], map[], [], [], 0, 0, 0)

  /** The endpoint served this key for this workspace at a time from `from` to `to`. */
  predicate ServedIn(served: seq<Event>, workspace: string, key: Key, from: int, to: int) {
    exists i :: 0 <= i < |served| && served[i].workspace == workspace && served[i].key == key
      && from <= served[i].at <= to
  }

  /** A returned key was served shortly enough before. */
  predicate Recent(s: State, r: Event) {
    || ServedIn(s.served, r.workspace, r.key, r.at - TTL - s.storeDelay - s.hitDelay + 1, r.at)
    || ServedIn(s.served, r.workspace, r.key, r.at - s.returnDelay, r.at)
  }

  predicate CallSound(s: State, c: Call) {
    match c
    case Asking(_) => true
    case Found(e) => e.at <= s.now && ServedIn(s.served, e.workspace, e.key, e.at - TTL - s.storeDelay + 1, e.at)
    case _ => c.served in s.served && c.served.at <= s.now
  }

  predicate EntrySound(s: State, workspace: string, e: Entry) {
    e.fetchedAt <= s.now && ServedIn(s.served, workspace, e.key, e.fetchedAt - s.storeDelay, e.fetchedAt)
  }

  ghost predicate Inv(s: State) {
    && (forall p :: p in s.calls ==> CallSound(s, s.calls[p]))
    && (forall w :: w in s.cache ==> EntrySound(s, w, s.cache[w]))
    && (forall i :: 0 <= i < |s.returned| ==> Recent(s, s.returned[i]))
  }

  /** The records only grow. */
  predicate Grows(s: State, t: State) {
    s.now <= t.now && s.served <= t.served && s.storeDelay <= t.storeDelay && s.hitDelay <= t.hitDelay
      && s.returnDelay <= t.returnDelay
  }

  lemma ServedInWidens(a: seq<Event>, b: seq<Event>, workspace: string, key: Key, from: int, from': int, to: int)
    requires a <= b && from' <= from && ServedIn(a, workspace, key, from, to)
    ensures ServedIn(b, workspace, key, from', to)
  {
    var i :| 0 <= i < |a| && a[i].workspace == workspace && a[i].key == key && from <= a[i].at <= to;
    assert b[i] == a[i];
  }

  lemma RecentKept(s: State, t: State, r: Event)
    requires Grows(s, t) && Recent(s, r)
    ensures Recent(t, r)
  {
    var from, from' := r.at - TTL - s.storeDelay - s.hitDelay + 1, r.at - TTL - t.storeDelay - t.hitDelay + 1;
    if ServedIn(s.served, r.workspace, r.key, from, r.at) {
      ServedInWidens(s.served, t.served, r.workspace, r.key, from, from', r.at);
    } else {
      ServedInWidens(s.served, t.served, r.workspace, r.key, r.at - s.returnDelay, r.at - t.returnDelay, r.at);
    }
  }

  lemma EntryKept(s: State, t: State, w: string, e: Entry)
    requires Grows(s, t) && EntrySound(s, w, e)
    ensures EntrySound(t, w, e)
  {
    ServedInWidens(s.served, t.served, w, e.key, e.fetchedAt - s.storeDelay, e.fetchedAt - t.storeDelay, e.fetchedAt);
  }

  /** What a hit finds was served shortly enough before its lookup... */
  lemma HitSound(s: State, w: string)
    requires Lookup(s.cache, w, s.now).Some? && EntrySound(s, w, s.cache[w])
    ensures CallSound(s, Found(Event(w, s.cache[w].key, s.now)))
  {
    var e := s.cache[w];
    var i :| 0 <= i < |s.served| && s.served[i].workspace == w && s.served[i].key == e.key
             && e.fetchedAt - s.storeDelay <= s.served[i].at <= e.fetchedAt;
  }

  /** ...and before its return. */
  lemma HitRecent(s: State, t: State, e: Event)
    requires CallSound(s, Found(e)) && s.served == t.served && s.storeDelay == t.storeDelay && t.hitDelay >= Since(s, e)
    ensures Recent(t, Event(e.workspace, e.key, s.now))
  {
    var i :| 0 <= i < |s.served| && s.served[i].workspace == e.workspace && s.served[i].key == e.key
             && e.at - TTL - s.storeDelay + 1 <= s.served[i].at <= e.at;
  }

  lemma CallKept(s: State, t: State, c: Call)
    requires Grows(s, t) && CallSound(s, c)
    ensures CallSound(t, c)
  {
    if c.Found? {
      var e := c.found;
      ServedInWidens(s.served, t.served, e.workspace, e.key, e.at - TTL - s.storeDelay + 1,
        e.at - TTL - t.storeDelay + 1, e.at);
    }
  }

  /** What a fetching call stores and returns was served. */
  lemma FetchedServed(s: State, p: nat, delay: nat)
    requires p in s.calls && (s.calls[p].Got? || s.calls[p].Kept?) && CallSound(s, s.calls[p])
             && delay >= Since(s, s.calls[p].served)
    ensures ServedIn(s.served, s.calls[p].served.workspace, s.calls[p].served.key, s.now - delay, s.now)
  {
    var i :| 0 <= i < |s.served| && s.served[i] == s.calls[p].served;
  }

  lemma CallsKept(s: State, e: Step)
    requires Inv(s) && Enabled(s, e) && Grows(s, Next(s, e))
    ensures forall p :: p in Next(s, e).calls ==> CallSound(Next(s, e), Next(s, e).calls[p])
  {
    var t := Next(s, e);
    forall p | p in t.calls
      ensures CallSound(t, t.calls[p])
    {
      if p in s.calls {
        assert CallSound(s, s.calls[p]);
        if t.calls[p] == s.calls[p] {
          CallKept(s, t, s.calls[p]);
        }
      } else if e.Hit? {
        HitSound(s, e.workspace);
      }
    }
  }

  lemma CacheKept(s: State, e: Step)
    requires Inv(s) && Enabled(s, e) && Grows(s, Next(s, e))
    ensures forall w :: w in Next(s, e).cache ==> EntrySound(Next(s, e), w, Next(s, e).cache[w])
  {
    var t := Next(s, e);
    forall w | w in t.cache
      ensures EntrySound(t, w, t.cache[w])
    {
      if e.Store? && w == s.calls[e.p].served.workspace {
        FetchedServed(s, e.p, t.storeDelay);
      } else {
        EntryKept(s, t, w, s.cache[w]);
      }
    }
  }

  lemma ReturnsKept(s: State, e: Step)
    requires Inv(s) && Enabled(s, e) && Grows(s, Next(s, e))
    ensures forall i :: 0 <= i < |Next(s, e).returned| ==> Recent(Next(s, e), Next(s, e).returned[i])
  {
    var t := Next(s, e);
    forall i | 0 <= i < |t.returned|
      ensures Recent(t, t.returned[i])
    {
      if i < |s.returned| {
        assert t.returned[i] == s.returned[i];
        RecentKept(s, t, s.returned[i]);
      } else if s.calls[e.p].Found? {
        HitRecent(s, t, s.calls[e.p].found);
      } else {
        FetchedServed(s, e.p, t.returnDelay);
      }
    }
  }

  lemma StepKeepsInv(s: State, e: Step)
    requires Inv(s) && Enabled(s, e)
    ensures Inv(Next(s, e))
  {
    assert Grows(s, Next(s, e));
    CallsKept(s, e);
    CacheKept(s, e);
    ReturnsKept(s, e);
  }

  lemma {:induction false} RunKeepsInv(s: State, steps: seq<Step>)
    requires Inv(s) && CanRun(s, steps)
    ensures Inv(Run(s, steps))
    decreases |steps|
  {
    if steps != [] {
      StepKeepsInv(s, steps[0]);
      RunKeepsInv(Next(s, steps[0]), steps[1..]);
    }
  }

  /** In every interleaving, a returned key was served for that same workspace: for a hit, less than the
      TTL plus the longest store delay and the longest hit before; for a fetch, no longer before than
      the longest return delay. */
  lemma ReturnedKeysRecent(steps: seq<Step>, i: nat)
    requires CanRun(START, steps) && i < |Run(START, steps).returned|
    ensures Recent(Run(START, steps), Run(START, steps).returned[i])
  {
    RunKeepsInv(START, steps);
  }

  lemma Cons(s: State, e: Step, rest: seq<Step>)
    requires Enabled(s, e) && CanRun(Next(s, e), rest)
    ensures CanRun(s, [e] + rest) && Run(s, [e] + rest) == Run(Next(s, e), rest)
  {
    assert ([e] + rest)[1..] == rest;
  }

  /** A key was served at time 0, and stored `delay` later by the call that is about to return it. */
  function Cached(delay: nat, w: string, k: Key): State {
    var served := Event(w, k, 0);
    State(delay, map[w := Entry(k, delay)], map[0 := Kept(served)], [served], [], delay, 0, 0)
  }

  lemma ReachCached(delay: nat, w: string, k: Key, rest: seq<Step>) returns (steps: seq<Step>)
    requires CanRun(Cached(delay, w, k), rest)
    ensures CanRun(START, steps) && Run(START, steps) == Run(Cached(delay, w, k), rest)
  {
    var s1 := Next(START, Miss(0, w));
    var s2 := Next(s1, Serve(0, k));
    assert s2.served == [] + [Event(w, k, 0)] == [Event(w, k, 0)];
    var s3 := Next(s2, Tick(delay));
    assert Next(s3, Store(0)) == Cached(delay, w, k);
    Cons(s3, Store(0), rest);
    Cons(s2, Tick(delay), [Store(0)] + rest);
    Cons(s1, Serve(0, k), [Tick(delay)] + ([Store(0)] + rest));
    Cons(START, Miss(0, w), [Serve(0, k)] + ([Tick(delay)] + ([Store(0)] + rest)));
    steps := [Miss(0, w)] + ([Serve(0, k)] + ([Tick(delay)] + ([Store(0)] + rest)));
  }

  /** The bound is reached: for every store delay and every time from lookup to return, some run returns
      a key served the TTL plus both, less one nanosecond, before. */
  lemma BoundReached(delay: nat, wait: nat, w: string, k: Key) returns (steps: seq<Step>)
    ensures CanRun(START, steps)
    ensures var t := Run(START, steps);
            && t.storeDelay == delay && t.hitDelay == wait && t.returnDelay == 0 && t.served == [Event(w, k, 0)]
            && t.returned == [Event(w, k, TTL + delay + wait - 1)]
  {
    var s1 := Next(Cached(delay, w, k), Tick(TTL - 1));
    var s2 := Next(s1, Hit(1, w));
    var s3 := Next(s2, Tick(wait));
    Cons(s3, Return(1), []);
    Cons(s2, Tick(wait), [Return(1)] + []);
    Cons(s1, Hit(1, w), [Tick(wait)] + ([Return(1)] + []));
    Cons(Cached(delay, w, k), Tick(TTL - 1), [Hit(1, w)] + ([Tick(wait)] + ([Return(1)] + [])));
    steps := ReachCached(delay, w, k, [Tick(TTL - 1)] + ([Hit(1, w)] + ([Tick(wait)] + ([Return(1)] + []))));
  }
}
