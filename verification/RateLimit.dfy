/** The per-IP rate limiter (internal/server/ratelimit.go). Times are nanoseconds and, like the
    token counts, real numbers. */
module RateLimit {

  const BUCKET_IDLE_TTL := 3600.0 * 1_000_000_000.0
  const SWEEP_EVERY := 1024

  function Min(a: real, b: real): real { if a < b then a else b }

  /** The two fields of a bucket that change. */
  datatype Bucket = Bucket(tokens: real, lastTick: real)

  /** `rate` is tokens per nanosecond. */
  datatype Config = Config(rate: real, burst: real) {
    function Fresh(now: real): Bucket { Bucket(burst, now) }

    /** The tokens a bucket gains in `elapsed` time. */
    function Earned(elapsed: real): real { elapsed * rate }

    /** What the bucket holds at `now`, before any request is charged. */
    function Level(b: Bucket, now: real): real {
      Min(burst, b.tokens + Earned(now - b.lastTick))
    }

    predicate Allows(b: Bucket, now: real) { Level(b, now) >= 1.0 }

    function Charge(b: Bucket, now: real): Bucket {
      Bucket(if Allows(b, now) then Level(b, now) - 1.0 else Level(b, now), now)
    }
  }

  class TokenBucket {
    const config: Config
    var tokens: real
    var lastTick: real

    function View(): Bucket
      reads this
    {
      Bucket(tokens, lastTick)
    }

    constructor (config: Config, now: real)
      ensures this.config == config && View() == config.Fresh(now)
    {
      this.config := config;
      tokens, lastTick := config.burst, now;
    }

    method Allow(now: real) returns (ok: bool)
      modifies this
      ensures ok <==> config.Allows(old(View()), now)
      ensures View() == config.Charge(old(View()), now)
      ensures var refilled := old(tokens) + config.rate * (now - old(lastTick));
              var level := if refilled < config.burst then refilled else config.burst;
              && (ok <==> level >= 1.0)
              && tokens == (if ok then level - 1.0 else level) && lastTick == now
    {
      var elapsed := now - lastTick;
      tokens := Min(config.burst, tokens + config.Earned(elapsed));
      lastTick := now;
      if tokens < 1.0 { return false; }
      tokens := tokens - 1.0;
      ok := true;
    }
  }

  // ---------------------------------------------------------------- the limiter

  /** The limiter's buckets and its call counter. */
  datatype Limiter = Limiter(buckets: map<string, Bucket>, calls: nat)

  function BucketOf(c: Config, buckets: map<string, Bucket>, ip: string, now: real): Bucket {
    if ip in buckets then buckets[ip] else c.Fresh(now)
  }

  predicate Idle(b: Bucket, now: real) { now - b.lastTick >= BUCKET_IDLE_TTL }

  function Evict(buckets: map<string, Bucket>, now: real, keep: string): map<string, Bucket> {
    map ip | ip in buckets && (ip == keep || !Idle(buckets[ip], now)) :: buckets[ip]
  }

  function Entered(c: Config, l: Limiter, ip: string, now: real): Limiter {
    l.(buckets := l.buckets[ip := BucketOf(c, l.buckets, ip, now)])
  }

  function Swept(l: Limiter, ip: string, now: real): Limiter {
    if l.calls + 1 >= SWEEP_EVERY then Limiter(Evict(l.buckets, now, ip), 0) else l.(calls := l.calls + 1)
  }

  function Charged(c: Config, l: Limiter, ip: string, now: real): Limiter
    requires ip in l.buckets
  {
    l.(buckets := l.buckets[ip := c.Charge(l.buckets[ip], now)])
  }

  /** A call reads the clock up to three times: for a new bucket, for a sweep, and for the charge. */
  datatype Call = Call(ip: string, created: real, swept: real, charged: real)
  {
    predicate Forwards() { created <= swept <= charged }
  }

  /** One request: its answer and the limiter afterwards. */
  function Request(c: Config, l: Limiter, call: Call): (r: (bool, Limiter)) {
    var ready := Swept(Entered(c, l, call.ip, call.created), call.ip, call.swept);
    (c.Allows(ready.buckets[call.ip], call.charged), Charged(c, ready, call.ip, call.charged))
  }

  class IpLimiter {
    const config: Config
    var buckets: map<string, TokenBucket>
    var calls: nat

    ghost predicate Valid()
      reads this
    {
      && (forall ip | ip in buckets :: buckets[ip].config == config)
      && (forall a, b | a in buckets && b in buckets && a != b :: buckets[a] != buckets[b])
    }

    ghost function View(): Limiter
      reads this, buckets.Values
    {
      Limiter(map ip | ip in buckets :: buckets[ip].View(), calls)
    }

    constructor (config: Config)
      ensures Valid() && View() == Limiter(map[], 0) && this.config == config
      ensures fresh(buckets.Values)
    {
      this.config := config;
      buckets, calls := map[], 0;
    }

    /** `evictIdleLocked`: goes over the buckets in any order. */
    method EvictIdle(now: real, keep: string)
      requires Valid()
      modifies this`buckets
      ensures Valid() && buckets.Values <= old(buckets.Values)
      ensures View() == Limiter(Evict(old(View()).buckets, now, keep), calls)
      ensures forall ip | ip in buckets :: ip in old(buckets) && buckets[ip] == old(buckets)[ip]
      ensures keep in old(buckets) ==> keep in buckets
      ensures forall ip | ip in old(buckets) ::
                ip in buckets <==> ip == keep || now - old(buckets)[ip].lastTick < 3_600_000_000_000.0
    {
      var rest := buckets.Keys;
      while rest != {}
        invariant rest <= old(buckets).Keys && Valid()
        invariant forall ip | ip in buckets :: ip in old(buckets) && buckets[ip] == old(buckets)[ip]
        invariant forall ip | ip in old(buckets) ::
                    ip in buckets <==> ip in rest || ip == keep || !Idle(old(buckets)[ip].View(), now)
      {
        var ip :| ip in rest;
        rest := rest - {ip};
        if ip != keep && now - buckets[ip].lastTick >= BUCKET_IDLE_TTL {
          buckets := buckets - {ip};
        }
      }
      assert buckets.Values <= old(buckets.Values) by {
        forall b | b in buckets.Values ensures b in old(buckets.Values) {
          var ip :| ip in buckets && buckets[ip] == b;
          assert old(buckets)[ip] == b;
        }
      }
    }

    /** The bucket of `ip`, created full on its first request. */
    method BucketFor(ip: string, now: real)
      requires Valid()
      modifies this`buckets
      ensures Valid() && ip in buckets && fresh(buckets.Values - old(buckets.Values))
      ensures View() == Entered(config, old(View()), ip, now)
    {
      if ip !in buckets {
        var b := new TokenBucket(config, now);
        buckets := buckets[ip := b];
      }
    }

    /** Counts the call and sweeps on every 1024th. */
    method CountCall(ip: string, now: real)
      requires Valid() && ip in buckets
      modifies this
      ensures Valid() && ip in buckets && buckets.Values <= old(buckets.Values)
      ensures View() == Swept(old(View()), ip, now)
      ensures calls == if old(calls) < 1023 then old(calls) + 1 else 0
    {
      calls := calls + 1;
      if calls >= SWEEP_EVERY {
        calls := 0;
        EvictIdle(now, ip);
      }
    }

    /** Charges the bucket of `ip` and changes no other. */
    method Charge(ip: string, now: real) returns (ok: bool)
      requires Valid() && ip in buckets
      modifies buckets[ip]
      ensures Valid()
      ensures ok <==> config.Allows(old(View()).buckets[ip], now)
      ensures View() == Charged(config, old(View()), ip, now)
    {
      ok := buckets[ip].Allow(now);
      forall o | o in buckets && o != ip ensures buckets[o].View() == old(buckets[o].View()) {
        assert buckets[o] != buckets[ip];
      }
    }

    /** The body of `ipLimiter.allow`. */
    method Allow(call: Call) returns (ok: bool)
      requires Valid()
      modifies this, buckets.Values
      ensures Valid() && fresh(buckets.Values - old(buckets.Values))
      ensures (ok, View()) == Request(config, old(View()), call)
    {
      BucketFor(call.ip, call.created);
      CountCall(call.ip, call.swept);
      assert buckets[call.ip] in buckets.Values;
      ok := Charge(call.ip, call.charged);
    }
  }

  // ---------------------------------------------------------------- eviction is unobservable

  /** A limiter that never evicts. */
  function KeepAll(c: Config, buckets: map<string, Bucket>, call: Call): (bool, map<string, Bucket>) {
    var b := BucketOf(c, buckets, call.ip, call.created);
    (c.Allows(b, call.charged), buckets[call.ip := c.Charge(b, call.charged)])
  }

  /** The calls come in time order, starting no earlier than `from`. */
  predicate InOrder(calls: seq<Call>, from: real) {
    calls == [] || (from <= calls[0].created && calls[0].Forwards() && InOrder(calls[1..], calls[0].charged))
  }

  function Answers(c: Config, l: Limiter, calls: seq<Call>): (r: seq<bool>)
    ensures |r| == |calls|
    decreases |calls|
  {
    if calls == [] then []
    else
      var (ok, l') := Request(c, l, calls[0]);
      [ok] + Answers(c, l', calls[1..])
  }

  function KeepAllAnswers(c: Config, buckets: map<string, Bucket>, calls: seq<Call>): (r: seq<bool>)
    ensures |r| == |calls|
    decreases |calls|
  {
    if calls == [] then []
    else
      var (ok, buckets') := KeepAll(c, buckets, calls[0]);
      [ok] + KeepAllAnswers(c, buckets', calls[1..])
  }

  /** An idle bucket has refilled by the time it is evicted. */
  ghost predicate RefillsWithinTTL(c: Config) {
    c.rate > 0.0 && c.burst <= c.Earned(BUCKET_IDLE_TTL)
  }

  ghost predicate Sane(c: Config, b: Bucket, now: real) {
    0.0 <= b.tokens <= c.burst && b.lastTick <= now
  }

  /** From `now` on the bucket counts as full. */
  ghost predicate FullFrom(c: Config, b: Bucket, now: real) {
    b.tokens + c.Earned(now - b.lastTick) >= c.burst
  }

  /** The evicting limiter has the same buckets, except that it may lack full ones. */
  ghost predicate Agree(c: Config, l: Limiter, all: map<string, Bucket>, now: real) {
    && (forall ip | ip in l.buckets :: ip in all && all[ip] == l.buckets[ip])
    && (forall ip | ip in all && ip !in l.buckets :: FullFrom(c, all[ip], now))
    && (forall ip | ip in all :: Sane(c, all[ip], now))
  }

  lemma Grows(c: Config, a: real, b: real)
    requires c.rate > 0.0 && a <= b
    ensures c.Earned(a) <= c.Earned(b) && c.Earned(0.0) == 0.0
    ensures c.Earned(b) == c.Earned(a) + c.Earned(b - a)
  {
  }

  lemma FullStays(c: Config, b: Bucket, now: real, later: real)
    requires c.rate > 0.0 && now <= later && FullFrom(c, b, now)
    ensures FullFrom(c, b, later) && c.Level(b, later) == c.burst
  {
    Grows(c, now - b.lastTick, later - b.lastTick);
  }

  lemma ChargeSane(c: Config, b: Bucket, now: real)
    requires c.rate > 0.0 && c.burst >= 0.0 && Sane(c, b, now)
    ensures Sane(c, c.Charge(b, now), now) && 0.0 <= c.Level(b, now) <= c.burst
  {
    Grows(c, 0.0, now - b.lastTick);
  }

  lemma IdleIsFull(c: Config, b: Bucket, now: real)
    requires RefillsWithinTTL(c) && Sane(c, b, now) && Idle(b, now)
    ensures FullFrom(c, b, now)
  {
    Grows(c, BUCKET_IDLE_TTL, now - b.lastTick);
  }

  lemma AgreeStep(c: Config, l: Limiter, all: map<string, Bucket>, before: real, call: Call)
    requires RefillsWithinTTL(c) && c.burst >= 0.0 && before <= call.created && call.Forwards() && Agree(c, l, all, before)
    ensures Request(c, l, call).0 == KeepAll(c, all, call).0
    ensures Agree(c, Request(c, l, call).1, KeepAll(c, all, call).1, call.charged)
  {
    var now := call.charged;
    var l', all' := Request(c, l, call).1, KeepAll(c, all, call).1;
    forall o | o in all && o !in l.buckets ensures FullFrom(c, all[o], now) && c.Level(all[o], now) == c.burst {
      FullStays(c, all[o], before, now);
    }
    var bl, ba := BucketOf(c, l.buckets, call.ip, call.created), BucketOf(c, all, call.ip, call.created);
    Grows(c, 0.0, now - call.created);
    assert c.Level(bl, now) == c.Level(ba, now);
    ChargeSane(c, ba, now);
    forall o | o in all' && o !in l'.buckets ensures FullFrom(c, all'[o], now) {
      if o in l.buckets {
        IdleIsFull(c, all[o], call.swept);
        FullStays(c, all[o], call.swept, now);
      }
    }
  }

  /** Sweeping idle buckets never changes an answer: on every sequence of calls the limiter agrees
      with one that keeps every bucket. */
  lemma {:induction false} EvictionUnobservable(c: Config, l: Limiter, all: map<string, Bucket>, calls: seq<Call>, from: real)
    requires RefillsWithinTTL(c) && c.burst >= 0.0 && InOrder(calls, from) && Agree(c, l, all, from)
    ensures Answers(c, l, calls) == KeepAllAnswers(c, all, calls)
    decreases |calls|
  {
    hide Agree, Request, KeepAll, RefillsWithinTTL;
    if calls != [] {
      AgreeStep(c, l, all, from, calls[0]);
      EvictionUnobservable(c, Request(c, l, calls[0]).1, KeepAll(c, all, calls[0]).1, calls[1..], calls[0].charged);
    }
  }

  // ---------------------------------------------------------------- and only then

  /** Some calls from `from` on are answered otherwise than by a limiter that keeps every bucket. */
  ghost predicate Differs(c: Config, l: Limiter, all: map<string, Bucket>, from: real) {
    exists calls :: InOrder(calls, from) && Answers(c, l, calls) != KeepAllAnswers(c, all, calls)
  }

  function At(ip: string, now: real): Call { Call(ip, now, now, now) }

  lemma DiffersLater(c: Config, l: Limiter, all: map<string, Bucket>, ip: string, from: real, now: real)
    requires from <= now && Differs(c, Request(c, l, At(ip, now)).1, KeepAll(c, all, At(ip, now)).1, now)
    ensures Differs(c, l, all, from)
  {
    hide Request, KeepAll;
    var call := At(ip, now);
    var calls :| InOrder(calls, now) && Answers(c, Request(c, l, call).1, calls) != KeepAllAnswers(c, KeepAll(c, all, call).1, calls);
    var more := [call] + calls;
    assert more[1..] == calls;
    assert InOrder(more, from);
    assert Answers(c, l, more)[1..] == Answers(c, Request(c, l, call).1, calls);
    assert KeepAllAnswers(c, all, more)[1..] == KeepAllAnswers(c, KeepAll(c, all, call).1, calls);
  }

  lemma DiffersNow(c: Config, l: Limiter, all: map<string, Bucket>, ip: string, from: real, now: real)
    requires from <= now && Request(c, l, At(ip, now)).0 != KeepAll(c, all, At(ip, now)).0
    ensures Differs(c, l, all, from)
  {
    hide Request, KeepAll;
    var calls := [At(ip, now)];
    assert InOrder(calls, from);
    assert Answers(c, l, calls)[0] != KeepAllAnswers(c, all, calls)[0];
  }

  ghost function LevelOf(c: Config, buckets: map<string, Bucket>, ip: string, now: real): real {
    c.Level(BucketOf(c, buckets, ip, now), now)
  }

  /** What a call does to the bucket of its own IP, and what waiting does. */
  lemma OwnBucket(c: Config, l: Limiter, all: map<string, Bucket>, ip: string, now: real)
    requires c.rate > 0.0 && c.burst >= 1.0
    ensures var r, k := Request(c, l, At(ip, now)), KeepAll(c, all, At(ip, now));
            && r.0 == (LevelOf(c, l.buckets, ip, now) >= 1.0) && k.0 == (LevelOf(c, all, ip, now) >= 1.0)
            && ip in r.1.buckets && r.1.buckets[ip] == c.Charge(BucketOf(c, l.buckets, ip, now), now)
            && ip in k.1 && k.1[ip] == c.Charge(BucketOf(c, all, ip, now), now)
            && LevelOf(c, r.1.buckets, ip, now) == LevelOf(c, l.buckets, ip, now) - (if r.0 then 1.0 else 0.0)
            && LevelOf(c, k.1, ip, now) == LevelOf(c, all, ip, now) - (if k.0 then 1.0 else 0.0)
  {
    Grows(c, 0.0, 0.0);
  }

  lemma Waiting(c: Config, buckets: map<string, Bucket>, ip: string, now: real, wait: real)
    requires c.rate > 0.0 && c.burst >= 1.0 && wait >= 0.0
    requires LevelOf(c, buckets, ip, now) + c.Earned(wait) <= 1.0
    ensures LevelOf(c, buckets, ip, now + wait) == LevelOf(c, buckets, ip, now) + c.Earned(wait)
  {
    if ip in buckets {
      Grows(c, now - buckets[ip].lastTick, now + wait - buckets[ip].lastTick);
    }
    Grows(c, 0.0, wait);
  }

  lemma TimeToEarn(c: Config, amount: real, wait: real)
    requires c.rate > 0.0 && wait == amount / c.rate
    ensures c.Earned(wait) == amount
  {
  }

  /** Two limiters that hold different amounts for an IP are told apart by draining both. */
  lemma {:induction false} UnequalDiffers(c: Config, l: Limiter, all: map<string, Bucket>, ip: string, now: real)
    requires c.rate > 0.0 && c.burst >= 1.0
    requires LevelOf(c, all, ip, now) < LevelOf(c, l.buckets, ip, now)
    ensures Differs(c, l, all, now)
    decreases LevelOf(c, l.buckets, ip, now).Floor
  {
    hide Request, KeepAll, LevelOf, Differs, Config.Earned;
    var mine, kept := LevelOf(c, l.buckets, ip, now), LevelOf(c, all, ip, now);
    OwnBucket(c, l, all, ip, now);
    if mine < 1.0 {
      var wait := (1.0 - mine) / c.rate;
      TimeToEarn(c, 1.0 - mine, wait);
      Waiting(c, l.buckets, ip, now, wait);
      Waiting(c, all, ip, now, wait);
      OwnBucket(c, l, all, ip, now + wait);
      DiffersNow(c, l, all, ip, now, now + wait);
    } else if kept < 1.0 {
      DiffersNow(c, l, all, ip, now, now);
    } else {
      UnequalDiffers(c, Request(c, l, At(ip, now)).1, KeepAll(c, all, At(ip, now)).1, ip, now);
      DiffersLater(c, l, all, ip, now, now);
    }
  }

  /** Calls of y an hour after x has used up its tokens have x's bucket evicted by the next sweep. */
  lemma {:induction false} EvictedDiffers(c: Config, l: Limiter, all: map<string, Bucket>, x: string, y: string, drained: real)
    requires c.rate > 0.0 && c.burst >= 1.0 && c.burst > c.Earned(BUCKET_IDLE_TTL) && x != y
    requires l.buckets == all && x in all && all.Keys <= {x, y} && all[x] == Bucket(0.0, drained) && l.calls < SWEEP_EVERY
    ensures Differs(c, l, all, drained + BUCKET_IDLE_TTL)
    decreases SWEEP_EVERY - l.calls
  {
    var now := drained + BUCKET_IDLE_TTL;
    var l', all' := Request(c, l, At(y, now)).1, KeepAll(c, all, At(y, now)).1;
    assert all'[x] == all[x] && all'.Keys <= {x, y};
    hide Differs;
    if l.calls + 1 < SWEEP_EVERY {
      assert l'.buckets == all' && l'.calls == l.calls + 1;
      EvictedDiffers(c, l', all', x, y, drained);
    } else {
      assert x !in l'.buckets;
      assert LevelOf(c, l'.buckets, x, now) == c.burst;
      assert LevelOf(c, all', x, now) == c.Earned(BUCKET_IDLE_TTL);
      UnequalDiffers(c, l', all', x, now);
    }
    DiffersLater(c, l, all, y, now, now);
  }

  /** Calls of x can use up its tokens to the last fraction. */
  lemma {:induction false} DrainedDiffers(c: Config, l: Limiter, all: map<string, Bucket>, x: string, y: string, now: real)
    requires c.rate > 0.0 && c.burst >= 1.0 && c.burst > c.Earned(BUCKET_IDLE_TTL) && x != y
    requires l.buckets == all && all.Keys <= {x} && l.calls < SWEEP_EVERY
    ensures Differs(c, l, all, now)
    decreases LevelOf(c, all, x, now).Floor
  {
    var level := LevelOf(c, all, x, now);
    if level > 1.0 {
      OwnCallKeepsAll(c, l, all, x, now);
      OwnBucket(c, l, all, x, now);
      DrainedDiffers(c, Request(c, l, At(x, now)).1, KeepAll(c, all, At(x, now)).1, x, y, now);
      DiffersLater(c, l, all, x, now, now);
    } else {
      var wait := (1.0 - level) / c.rate;
      TimeToEarn(c, 1.0 - level, wait);
      Waiting(c, all, x, now, wait);
      OwnCallKeepsAll(c, l, all, x, now + wait);
      LastToken(c, all, x, now + wait);
      var l', all' := Request(c, l, At(x, now + wait)).1, KeepAll(c, all, At(x, now + wait)).1;
      EvictedDiffers(c, l', all', x, y, now + wait);
      DiffersEarlier(c, l', all', now + wait, now + wait + BUCKET_IDLE_TTL);
      DiffersLater(c, l, all, x, now, now + wait);
    }
  }

  lemma LastToken(c: Config, all: map<string, Bucket>, x: string, now: real)
    requires LevelOf(c, all, x, now) == 1.0
    ensures KeepAll(c, all, At(x, now)).1 == all[x := Bucket(0.0, now)]
  {
  }

  /** While no other IP calls, a sweep evicts nothing. */
  lemma OwnCallKeepsAll(c: Config, l: Limiter, all: map<string, Bucket>, x: string, now: real)
    requires l.buckets == all && all.Keys <= {x} && l.calls < SWEEP_EVERY
    ensures var l' := Request(c, l, At(x, now)).1;
            l'.buckets == KeepAll(c, all, At(x, now)).1 && l'.buckets.Keys <= {x} && l'.calls < SWEEP_EVERY
  {
  }

  lemma DiffersEarlier(c: Config, l: Limiter, all: map<string, Bucket>, from: real, later: real)
    requires from <= later && Differs(c, l, all, later)
    ensures Differs(c, l, all, from)
  {
    var calls :| InOrder(calls, later) && Answers(c, l, calls) != KeepAllAnswers(c, all, calls);
    assert InOrder(calls, from);
  }

  lemma {:induction false} NothingAllowed(c: Config, l: Limiter, all: map<string, Bucket>, calls: seq<Call>)
    requires c.burst < 1.0
    ensures Answers(c, l, calls) == KeepAllAnswers(c, all, calls)
    decreases |calls|
  {
    if calls != [] { NothingAllowed(c, Request(c, l, calls[0]).1, KeepAll(c, all, calls[0]).1, calls[1..]); }
  }

  /** Evicting idle buckets goes unnoticed, whatever is called when, exactly if a bucket refills
      within the time-to-live or holds no token in the first place. */
  lemma EvictionUnobservableExactly(c: Config)
    requires c.rate > 0.0 && c.burst >= 0.0
    ensures (exists from :: Differs(c, Limiter(map[], 0), map[], from)) <==>
            c.burst > c.rate * 3_600_000_000_000.0 && c.burst >= 1.0
  {
    if !RefillsWithinTTL(c) && c.burst >= 1.0 {
      DrainedDiffers(c, Limiter(map[], 0), map[], "x", "y", 0.0);
    } else if from :| Differs(c, Limiter(map[], 0), map[], from) {
      var calls :| InOrder(calls, from) && Answers(c, Limiter(map[], 0), calls) != KeepAllAnswers(c, map[], calls);
      if c.burst < 1.0 {
        NothingAllowed(c, Limiter(map[], 0), map[], calls);
      } else {
        EvictionUnobservable(c, Limiter(map[], 0), map[], calls, from);
      }
    }
  }

  /** The server's configuration: a burst of three seconds' worth of requests, rounded down. */
  function ServerConfig(perSecond: real): Config
  {
    Config(perSecond / 1_000_000_000.0, (perSecond * 3.0).Floor as real)
  }

  lemma ServerConfigRefills(perSecond: real)
    requires perSecond > 0.0
    ensures RefillsWithinTTL(ServerConfig(perSecond)) && ServerConfig(perSecond).burst >= 0.0
    ensures perSecond * 3.0 - 1.0 < ServerConfig(perSecond).burst <= perSecond * 3.0
  {
    var rate := perSecond / 1_000_000_000.0;
    assert rate * BUCKET_IDLE_TTL == perSecond * 3600.0;
  }

  // ---------------------------------------------------------------- the bound

  function Allowed(calls: seq<Call>, answers: seq<bool>, ip: string): nat
    requires |calls| == |answers|
  {
    if calls == [] then 0
    else (if calls[0].ip == ip && answers[0] then 1 else 0) + Allowed(calls[1..], answers[1..], ip)
  }

  /** What the bucket of `ip` would hold at `now`. */
  ghost function Potential(c: Config, buckets: map<string, Bucket>, ip: string, now: real): real {
    c.Level(BucketOf(c, buckets, ip, now), now)
  }

  ghost predicate AllSane(c: Config, buckets: map<string, Bucket>, now: real) {
    forall ip | ip in buckets :: Sane(c, buckets[ip], now)
  }

  lemma PotentialGrows(c: Config, buckets: map<string, Bucket>, ip: string, now: real, later: real)
    requires c.rate > 0.0 && c.burst >= 0.0 && AllSane(c, buckets, now) && now <= later
    ensures 0.0 <= Potential(c, buckets, ip, later) <= Potential(c, buckets, ip, now) + c.Earned(later - now)
  {
    if ip in buckets {
      var b := buckets[ip];
      ChargeSane(c, b, later);
      Grows(c, now - b.lastTick, later - b.lastTick);
    }
    Grows(c, 0.0, later - now);
  }

  lemma {:induction false} AllowedBound(c: Config, buckets: map<string, Bucket>, calls: seq<Call>, ip: string,
                                         from: real, to: real)
    requires c.rate > 0.0 && c.burst >= 0.0 && AllSane(c, buckets, from) && InOrder(calls, from)
    requires from <= to && forall i | 0 <= i < |calls| :: calls[i].charged <= to
    ensures Allowed(calls, KeepAllAnswers(c, buckets, calls), ip) as real
              <= Potential(c, buckets, ip, from) + c.Earned(to - from)
    decreases |calls|
  {
    if calls == [] {
      PotentialGrows(c, buckets, ip, from, from);
      Grows(c, 0.0, to - from);
    } else {
      var call := calls[0];
      var now := call.charged;
      var (ok, buckets') := KeepAll(c, buckets, call);
      PotentialGrows(c, buckets, ip, from, now);
      CallKeepsSane(c, buckets, call, from);
      AllowedBound(c, buckets', calls[1..], ip, now, to);
      if call.ip == ip { PotentialAfterCharge(c, buckets, call, from); }
      Grows(c, now - from, to - from);
    }
  }

  lemma CallKeepsSane(c: Config, buckets: map<string, Bucket>, call: Call, from: real)
    requires c.rate > 0.0 && c.burst >= 0.0 && AllSane(c, buckets, from) && from <= call.created && call.Forwards()
    ensures AllSane(c, KeepAll(c, buckets, call).1, call.charged)
  {
    ChargeSane(c, BucketOf(c, buckets, call.ip, call.created), call.charged);
  }

  lemma PotentialAfterCharge(c: Config, buckets: map<string, Bucket>, call: Call, from: real)
    requires c.rate > 0.0 && c.burst >= 0.0 && AllSane(c, buckets, from) && from <= call.created && call.Forwards()
    ensures var (ok, buckets') := KeepAll(c, buckets, call);
            Potential(c, buckets', call.ip, call.charged) ==
              Potential(c, buckets, call.ip, call.charged) - (if ok then 1.0 else 0.0)
  {
    ChargeSane(c, BucketOf(c, buckets, call.ip, call.created), call.charged);
    Grows(c, 0.0, call.charged - call.created);
    Grows(c, 0.0, call.charged - call.charged);
  }

  lemma EarnedIs(c: Config, elapsed: real)
    ensures c.Earned(elapsed) == c.rate * elapsed
  {
  }

  /** In any window of length `to - from` at most burst + rate * length requests of one IP are
      allowed, whatever came before. */
  lemma WindowBound(c: Config, before: seq<Call>, window: seq<Call>, ip: string, start: real, from: real, to: real)
    requires RefillsWithinTTL(c) && c.burst >= 0.0
    requires InOrder(before + window, start) && InOrder(window, from) && start <= from <= to
    requires forall i | 0 <= i < |before| :: before[i].charged <= from
    requires forall i | 0 <= i < |window| :: window[i].charged <= to
    ensures Allowed(window, Answers(c, Limiter(map[], 0), before + window)[|before|..], ip) as real
              <= c.burst + c.rate * (to - from)
  {
    hide Answers, KeepAllAnswers, Allowed, InOrder;
    EvictionUnobservable(c, Limiter(map[], 0), map[], before + window, start);
    var buckets := AfterCalls(c, map[], before, window, start, from);
    AllowedBound(c, buckets, window, ip, from, to);
    EarnedIs(c, to - from);
    hide Config.Earned;
  }

  /** The answers to the window are those of the state the earlier calls leave. */
  lemma {:induction false} AfterCalls(c: Config, buckets: map<string, Bucket>, before: seq<Call>, window: seq<Call>,
                                       start: real, from: real)
    returns (after: map<string, Bucket>)
    requires c.rate > 0.0 && c.burst >= 0.0 && AllSane(c, buckets, start)
    requires InOrder(before + window, start) && start <= from && forall i | 0 <= i < |before| :: before[i].charged <= from
    ensures AllSane(c, after, from)
    ensures KeepAllAnswers(c, buckets, before + window)[|before|..] == KeepAllAnswers(c, after, window)
    decreases |before|
  {
    if before == [] {
      assert before + window == window;
      after := buckets;
    } else {
      hide KeepAll;
      var call := before[0];
      assert (before + window)[0] == call && (before + window)[1..] == before[1..] + window;
      CallKeepsSane(c, buckets, call, start);
      after := AfterCalls(c, KeepAll(c, buckets, call).1, before[1..], window, call.charged, from);
    }
  }
}
