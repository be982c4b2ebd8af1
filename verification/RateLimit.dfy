/**
 What the rate limiter is for: a fixed window per client, in an unbounded map with an
 unbounded counter, and how many requests that lets through. The hash table that stands
 in for this map is in `RateLimiter`.
 */
module RateLimit {
  import opened Bytes

  /** One request: its client and the two clock readings the middleware may take. */
  datatype Hit = Hit(ip: Bytes, first: int, now: int)

  datatype Entry = Entry(windowStart: int, requests: nat)

  datatype Served = Served(entry: Entry, admitted: bool)

  /** The limit after truncation: requests per window and window length in seconds. */
  datatype Config = Config(max: nat, window: nat)

  /** A request against the client's window, or against a new one opened at the first reading. */
  function Serve(known: Option<Entry>, h: Hit, cfg: Config): Served {
    var base := if known.Some? then known.value else Entry(h.first, 0);
    var current := if h.now - base.windowStart >= cfg.window then Entry(h.now, 0) else base;
    Served(Entry(current.windowStart, current.requests + 1), current.requests + 1 <= cfg.max)
  }

  function Known(m: map<Bytes, Entry>, ip: Bytes): Option<Entry> {
    if ip in m then Some(m[ip]) else None
  }

  /** The empty address is known from the start: it is what the zeroed table holds. */
  const NOBODY: Bytes := []

  function Initially(): map<Bytes, Entry> { map[NOBODY := Entry(0, 0)] }

  /** Every client's window after a run. */
  function MapAfter(hits: seq<Hit>, cfg: Config): map<Bytes, Entry>
    decreases |hits|, 1
  {
    if hits == [] then Initially()
    else
      var h := hits[|hits| - 1];
      MapAfter(hits[..|hits| - 1], cfg)[h.ip := ServedLast(hits, cfg).entry]
  }

  /** How the last request of a run is served. */
  function ServedLast(hits: seq<Hit>, cfg: Config): Served
    requires hits != []
    decreases |hits|, 0
  {
    var h := hits[|hits| - 1];
    Serve(Known(MapAfter(hits[..|hits| - 1], cfg), h.ip), h, cfg)
  }

  predicate InWindow(now: int, from: int, cfg: Config) {
    from <= now < from + cfg.window
  }

  /** Requests of `ip` admitted in the `window` seconds from `from`. */
  function AdmittedIn(hits: seq<Hit>, ip: Bytes, from: int, cfg: Config): nat {
    if hits == [] then 0
    else
      var h := hits[|hits| - 1];
      AdmittedIn(hits[..|hits| - 1], ip, from, cfg)
      + if h.ip == ip && InWindow(h.now, from, cfg) && ServedLast(hits, cfg).admitted then 1 else 0
  }

  /** Clock readings never go back, within a request or between requests. */
  predicate Monotone(hits: seq<Hit>) {
    && (forall i :: 0 <= i < |hits| ==> 0 <= hits[i].first <= hits[i].now)
    && (forall i, j :: 0 <= i < j < |hits| ==> hits[i].now <= hits[j].now)
  }

  /** The two readings of every request agree: the clock does not tick between them. */
  predicate SameReadings(hits: seq<Hit>) {
    forall i :: 0 <= i < |hits| ==> hits[i].first == hits[i].now
  }

  function Min(a: nat, b: nat): nat { if a <= b then a else b }

  /**
   The invariant of the bound: how many were admitted, by where the current window starts.
   `slack` is one when the request that opens a window is known to fall on its start.
   */
  predicate Budget(count: nat, known: Option<Entry>, from: int, cfg: Config, slack: nat) {
    match known
    case None => count == 0
    case Some(e) =>
      && slack <= e.requests
      && (e.windowStart < from ==> count + slack <= Min(e.requests, cfg.max))
      && (e.windowStart < from + cfg.window ==> count + slack <= cfg.max + Min(e.requests, cfg.max))
      && count + slack <= 2 * cfg.max
  }

  /** Serving one request keeps the budget. */
  lemma BudgetStep(count: nat, known: Option<Entry>, h: Hit, from: int, cfg: Config, slack: nat)
    requires slack <= 1 && slack <= cfg.max && h.first <= h.now && (slack == 1 ==> h.first == h.now)
    requires Budget(count, known, from, cfg, slack)
    requires h.now < from ==> count == 0
    requires known.Some? ==> known.value.windowStart <= h.now
    ensures var s := Serve(known, h, cfg);
            Budget(count + if InWindow(h.now, from, cfg) && s.admitted then 1 else 0, Some(s.entry), from, cfg, slack)
  {
  }

  lemma MonotonePrefix(hits: seq<Hit>)
    requires Monotone(hits) && hits != []
    ensures Monotone(hits[..|hits| - 1])
  {
  }

  /** A window never starts after the latest reading. */
  lemma {:induction false} StartsInPast(hits: seq<Hit>, ip: Bytes, cfg: Config)
    requires Monotone(hits) && ip in MapAfter(hits, cfg)
    ensures MapAfter(hits, cfg)[ip].windowStart <= if hits == [] then 0 else hits[|hits| - 1].now
  {
    if hits != [] {
      var init, h := hits[..|hits| - 1], hits[|hits| - 1];
      MonotonePrefix(hits);
      if init != [] { assert init[|init| - 1].now <= h.now; }
      assert 0 <= h.first <= h.now;
      if ip in MapAfter(init, cfg) { StartsInPast(init, ip, cfg); }
    }
  }

  lemma {:induction false} NothingBefore(hits: seq<Hit>, ip: Bytes, from: int, cfg: Config)
    requires forall i :: 0 <= i < |hits| ==> hits[i].now < from
    ensures AdmittedIn(hits, ip, from, cfg) == 0
  {
    hide ServedLast;
    if hits != [] { NothingBefore(hits[..|hits| - 1], ip, from, cfg); }
  }

  /** The budget holds after every run with a monotone clock. */
  lemma {:induction false} BudgetHolds(hits: seq<Hit>, ip: Bytes, from: int, cfg: Config, slack: nat)
    requires Monotone(hits) && slack <= 1 && slack <= cfg.max
    requires slack == 1 ==> SameReadings(hits) && ip != NOBODY
    ensures Budget(AdmittedIn(hits, ip, from, cfg), Known(MapAfter(hits, cfg), ip), from, cfg, slack)
  {
    hide Budget, Serve;
    if hits == [] {
      BudgetStart(ip, from, cfg, slack);
    } else {
      var init, h := hits[..|hits| - 1], hits[|hits| - 1];
      MonotonePrefix(hits);
      BudgetHolds(init, ip, from, cfg, slack);
      if h.ip == ip {
        if h.now < from { NothingBefore(init, ip, from, cfg); }
        StartBeforeReading(hits, cfg);
        BudgetStep(AdmittedIn(init, ip, from, cfg), Known(MapAfter(init, cfg), ip), h, from, cfg, slack);
      }
    }
  }

  lemma BudgetStart(ip: Bytes, from: int, cfg: Config, slack: nat)
    requires slack <= 1 && slack <= cfg.max && (slack == 1 ==> ip != NOBODY)
    ensures Budget(0, Known(Initially(), ip), from, cfg, slack)
  {
  }

  lemma StartBeforeReading(hits: seq<Hit>, cfg: Config)
    requires Monotone(hits) && hits != []
    ensures var h := hits[|hits| - 1];
            var known := Known(MapAfter(hits[..|hits| - 1], cfg), h.ip);
            h.first <= h.now && (known.Some? ==> known.value.windowStart <= h.now)
  {
    var init, h := hits[..|hits| - 1], hits[|hits| - 1];
    MonotonePrefix(hits);
    if h.ip in MapAfter(init, cfg) { StartsInPast(init, h.ip, cfg); }
    if init != [] { assert init[|init| - 1].now <= h.now; }
  }

  /**
   Safety over whole runs: any `window` consecutive seconds admit at most twice the limit of
   any one client's requests, and one fewer when the clock does not tick inside a request.
   */
  lemma AtMostTwice(hits: seq<Hit>, ip: Bytes, from: int, cfg: Config)
    requires Monotone(hits)
    ensures AdmittedIn(hits, ip, from, cfg) <= 2 * cfg.max
    ensures SameReadings(hits) && ip != NOBODY && cfg.max > 0 ==> AdmittedIn(hits, ip, from, cfg) <= 2 * cfg.max - 1
  {
    hide AdmittedIn, MapAfter, Monotone, SameReadings;
    BudgetHolds(hits, ip, from, cfg, 0);
    if SameReadings(hits) && ip != NOBODY && cfg.max > 0 { BudgetHolds(hits, ip, from, cfg, 1); }
    BudgetCap(AdmittedIn(hits, ip, from, cfg), Known(MapAfter(hits, cfg), ip), from, cfg);
  }

  lemma BudgetCap(count: nat, known: Option<Entry>, from: int, cfg: Config)
    ensures Budget(count, known, from, cfg, 0) ==> count <= 2 * cfg.max
    ensures Budget(count, known, from, cfg, 1) && cfg.max > 0 ==> count <= 2 * cfg.max - 1
  {
  }

  /** Successive windows of a client start at least `window` seconds apart. */
  lemma {:induction false} StartsApart(hits: seq<Hit>, n: nat, ip: Bytes, cfg: Config)
    requires n <= |hits| && ip in MapAfter(hits[..n], cfg)
    ensures ip in MapAfter(hits, cfg)
    ensures var s, t := MapAfter(hits[..n], cfg)[ip].windowStart, MapAfter(hits, cfg)[ip].windowStart;
            s == t || s + cfg.window <= t
  {
    if n == |hits| {
      assert hits[..n] == hits;
    } else {
      var init := hits[..|hits| - 1];
      assert init[..n] == hits[..n];
      StartsApart(init, n, ip, cfg);
    }
  }

  // ---------------------------------------------- who is never refused

  /** Requests of `ip`, admitted or not, at `from` or later. */
  function RequestsSince(hits: seq<Hit>, ip: Bytes, from: int): nat {
    if hits == [] then 0
    else
      var h := hits[|hits| - 1];
      RequestsSince(hits[..|hits| - 1], ip, from) + if h.ip == ip && h.now >= from then 1 else 0
  }

  lemma {:induction false} SinceLater(hits: seq<Hit>, ip: Bytes, from: int, later: int)
    requires from <= later
    ensures RequestsSince(hits, ip, later) <= RequestsSince(hits, ip, from)
  {
    if hits != [] { SinceLater(hits[..|hits| - 1], ip, from, later); }
  }

  /** The counter never runs ahead of the requests made since the window started. */
  lemma {:induction false} CounterHonest(hits: seq<Hit>, ip: Bytes, cfg: Config)
    requires Monotone(hits) && ip in MapAfter(hits, cfg)
    ensures var e := MapAfter(hits, cfg)[ip]; e.requests <= RequestsSince(hits, ip, e.windowStart)
  {
    if hits != [] {
      var init, h := hits[..|hits| - 1], hits[|hits| - 1];
      MonotonePrefix(hits);
      StartBeforeReading(hits, cfg);
      if ip in MapAfter(init, cfg) { CounterHonest(init, ip, cfg); }
    }
  }

  /** A request is admitted when its client made at most `max` requests in the `window` seconds it ends. */
  lemma WithinLimit(hits: seq<Hit>, cfg: Config)
    requires Monotone(hits) && hits != [] && cfg.window > 0
    requires var h := hits[|hits| - 1]; RequestsSince(hits, h.ip, h.now - cfg.window + 1) <= cfg.max
    ensures ServedLast(hits, cfg).admitted
  {
    hide Monotone, RequestsSince;
    var h := hits[|hits| - 1];
    CounterHonest(hits, h.ip, cfg);
    SinceLater(hits, h.ip, h.now - cfg.window + 1, MapAfter(hits, cfg)[h.ip].windowStart);
  }

  // ------------------------------------------ what the truncated limits do

  /** A limit that truncates to zero refuses everything. */
  lemma ZeroLimit(hits: seq<Hit>, cfg: Config)
    requires hits != [] && cfg.max == 0
    ensures !ServedLast(hits, cfg).admitted
  {
  }

  /** A window that truncates to zero seconds refuses nothing, as long as the limit is not zero. */
  lemma ZeroWindow(hits: seq<Hit>, cfg: Config)
    requires hits != [] && Monotone(hits) && cfg.window == 0 && cfg.max > 0
    ensures ServedLast(hits, cfg).admitted
  {
    hide MapAfter, Monotone;
    StartBeforeReading(hits, cfg);
  }

  // ------------------------------------------------------ one-second windows

  /** With one-second windows a client's requests of one second all fall in one window. */
  ghost predicate SecondBudget(count: nat, known: Option<Entry>, from: int, cfg: Config) {
    match known
    case None => count == 0
    case Some(e) =>
      if e.windowStart < from then count == 0
      else if e.windowStart == from then count <= Min(e.requests, cfg.max)
      else count <= cfg.max
  }

  lemma SecondStep(count: nat, known: Option<Entry>, h: Hit, from: int, cfg: Config)
    requires cfg.window == 1 && h.first <= h.now && SecondBudget(count, known, from, cfg)
    requires known.Some? ==> known.value.windowStart <= h.now
    ensures var s := Serve(known, h, cfg);
            SecondBudget(count + if InWindow(h.now, from, cfg) && s.admitted then 1 else 0, Some(s.entry), from, cfg)
  {
  }

  lemma {:induction false} SecondHolds(hits: seq<Hit>, ip: Bytes, from: int, cfg: Config)
    requires Monotone(hits) && cfg.window == 1
    ensures SecondBudget(AdmittedIn(hits, ip, from, cfg), Known(MapAfter(hits, cfg), ip), from, cfg)
  {
    hide SecondBudget, Serve;
    if hits == [] {
      SecondStart(ip, from, cfg);
    } else {
      var init, h := hits[..|hits| - 1], hits[|hits| - 1];
      MonotonePrefix(hits);
      SecondHolds(init, ip, from, cfg);
      if h.ip == ip {
        StartBeforeReading(hits, cfg);
        SecondStep(AdmittedIn(init, ip, from, cfg), Known(MapAfter(init, cfg), ip), h, from, cfg);
      }
    }
  }

  lemma SecondStart(ip: Bytes, from: int, cfg: Config)
    ensures SecondBudget(0, Known(Initially(), ip), from, cfg)
  {
  }

  /** With one-second windows, the built-in setting included, no second admits more than the limit. */
  lemma AtMostOnce(hits: seq<Hit>, ip: Bytes, from: int, cfg: Config)
    requires Monotone(hits) && cfg.window == 1
    ensures AdmittedIn(hits, ip, from, cfg) <= cfg.max
  {
    hide AdmittedIn, MapAfter, Monotone;
    SecondHolds(hits, ip, from, cfg);
  }

  // ------------------------------------------------ the bounds are attained

  /** `n` requests of `ip` at one moment. */
  function Burst(ip: Bytes, now: int, n: nat): (b: seq<Hit>)
    ensures |b| == n
  {
    seq(n, _ => Hit(ip, now, now))
  }

  /** One more request of a client at the end of a run. */
  lemma Snoc(hits: seq<Hit>, h: Hit, from: int, cfg: Config)
    ensures var s := Serve(Known(MapAfter(hits, cfg), h.ip), h, cfg);
            && Known(MapAfter(hits + [h], cfg), h.ip) == Some(s.entry)
            && AdmittedIn(hits + [h], h.ip, from, cfg)
               == AdmittedIn(hits, h.ip, from, cfg) + if InWindow(h.now, from, cfg) && s.admitted then 1 else 0
  {
    hide Serve, InWindow;
    assert (hits + [h])[..|hits|] == hits;
  }

  /** A burst inside the client's window and below its limit is admitted whole. */
  lemma {:induction false} BurstAdmitted(hits: seq<Hit>, ip: Bytes, now: int, n: nat, e: Entry, from: int, cfg: Config)
    requires Known(MapAfter(hits, cfg), ip) == Some(e) && now - e.windowStart < cfg.window
    requires e.requests + n <= cfg.max && InWindow(now, from, cfg)
    ensures Known(MapAfter(hits + Burst(ip, now, n), cfg), ip) == Some(Entry(e.windowStart, e.requests + n))
    ensures AdmittedIn(hits + Burst(ip, now, n), ip, from, cfg) == AdmittedIn(hits, ip, from, cfg) + n
  {
    hide MapAfter, AdmittedIn, ServedLast;
    if n == 0 {
      assert hits + Burst(ip, now, 0) == hits;
    } else {
      var h := Hit(ip, now, now);
      BurstAdmitted(hits, ip, now, n - 1, e, from, cfg);
      Snoc(hits + Burst(ip, now, n - 1), h, from, cfg);
      assert hits + Burst(ip, now, n) == hits + Burst(ip, now, n - 1) + [h];
    }
  }

  /** After `hits` the first request at `now` opens a window, and a burst fills it. */
  lemma FreshBurst(hits: seq<Hit>, h: Hit, n: nat, from: int, cfg: Config)
    requires 0 < n <= cfg.max && 0 < cfg.window && InWindow(h.now, from, cfg)
    requires var known := Known(MapAfter(hits, cfg), h.ip);
             if known.Some? then h.now - known.value.windowStart >= cfg.window else h.now - h.first < cfg.window
    ensures var run := hits + [h] + Burst(h.ip, h.now, n - 1);
            AdmittedIn(run, h.ip, from, cfg) == AdmittedIn(hits, h.ip, from, cfg) + n
            && Known(MapAfter(run, cfg), h.ip)
               == Some(Entry(if Known(MapAfter(hits, cfg), h.ip).Some? then h.now else h.first, n))
  {
    hide MapAfter, AdmittedIn, ServedLast;
    Snoc(hits, h, from, cfg);
    var e := Serve(Known(MapAfter(hits, cfg), h.ip), h, cfg).entry;
    BurstAdmitted(hits + [h], h.ip, h.now, n - 1, e, from, cfg);
  }

  lemma NobodyYet(ip: Bytes, from: int, cfg: Config)
    requires ip != NOBODY
    ensures Known(MapAfter([], cfg), ip) == None && AdmittedIn([], ip, from, cfg) == 0
  {
  }

  /** `max` requests at the end of a window whose first reading came early, and `max` in the next. */
  function DoubleRun(ip: Bytes, cfg: Config): seq<Hit>
    requires cfg.max > 0
  {
    var w := cfg.window;
    [Hit(ip, 0, w - 1)] + Burst(ip, w - 1, cfg.max - 1) + [Hit(ip, w, w)] + Burst(ip, w, cfg.max - 1)
  }

  /** Twice the limit is reached for every limit and every window of two seconds or more. */
  lemma TwiceReached(ip: Bytes, cfg: Config)
    requires ip != NOBODY && cfg.max > 0 && cfg.window > 1
    ensures Monotone(DoubleRun(ip, cfg)) && AdmittedIn(DoubleRun(ip, cfg), ip, cfg.window - 1, cfg) == 2 * cfg.max
  {
    hide MapAfter, AdmittedIn;
    var w, m := cfg.window, cfg.max;
    NobodyYet(ip, w - 1, cfg);
    var a, b := Hit(ip, 0, w - 1), Hit(ip, w, w);
    FreshBurst([], a, m, w - 1, cfg);
    assert [] + [a] + Burst(ip, w - 1, m - 1) == [a] + Burst(ip, w - 1, m - 1);
    FreshBurst([a] + Burst(ip, w - 1, m - 1), b, m, w - 1, cfg);
  }

  /** One request at the start of a window, the rest at its end, and `max` in the next: no reading ever lags. */
  function SteadyRun(ip: Bytes, cfg: Config): seq<Hit>
    requires cfg.max > 0
  {
    var w := cfg.window;
    [Hit(ip, 0, 0)] + Burst(ip, w - 1, cfg.max - 1) + [Hit(ip, w, w)] + Burst(ip, w, cfg.max - 1)
  }

  /** And one fewer is reached when the clock does not tick inside a request. */
  lemma SteadyReached(ip: Bytes, cfg: Config)
    requires ip != NOBODY && cfg.max > 0 && cfg.window > 1
    ensures var run := SteadyRun(ip, cfg);
            Monotone(run) && SameReadings(run) && AdmittedIn(run, ip, cfg.window - 1, cfg) == 2 * cfg.max - 1
  {
    hide MapAfter, AdmittedIn;
    var w, m := cfg.window, cfg.max;
    var a, b := Hit(ip, 0, 0), Hit(ip, w, w);
    NobodyYet(ip, w - 1, cfg);
    Snoc([], a, w - 1, cfg);
    assert [] + [a] == [a];
    BurstAdmitted([a], ip, w - 1, m - 1, Entry(0, 1), w - 1, cfg);
    FreshBurst([a] + Burst(ip, w - 1, m - 1), b, m, w - 1, cfg);
  }
}
