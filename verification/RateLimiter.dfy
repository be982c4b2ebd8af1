/**
 The rate limiter as it is built: a direct-mapped table of 4096 slots indexed by a 64-bit
 string hash, a 32-bit counter that can wrap, and limits truncated to 8 and 16 bits. While
 no window sees 2^32 requests it gives the verdicts of `RateLimit` on every run of a set of
 clients exactly when no two of them share a slot.
 */
module RateLimiter {
  import opened Bytes
  import opened RateLimit
  import Bits

  const SIZE := 4096
  const WORD32: nat := 0x1_0000_0000
  const WORD64: nat := 0x1_0000_0000_0000_0000

  // ---------------------------------------------------------------- hash

  /** A `char` is signed. */
  function SignedChar(b: byte): int { if b < 128 then b else b - 256 }

  function HashFrom(h: nat, ip: Bytes): nat
    decreases |ip|
  {
    if ip == [] then h else HashFrom((33 * h + SignedChar(ip[0])) % WORD64, ip[1..])
  }

  function Slot(ip: Bytes): (k: nat)
    ensures k < SIZE
  {
    HashFrom(5381, ip) % SIZE
  }

  /** `((hash << 5) + hash) + c` in 64 bits, with `c` possibly negative. */
  lemma ShiftAndAdd(h: nat, c: int)
    ensures (h * 32 % WORD64 + h + c) % WORD64 == (33 * h + c) % WORD64
  {
    var q := h * 32 / WORD64;
    assert 33 * h + c == (h * 32 % WORD64 + h + c) + WORD64 * q;
    Bits.Wraps(h * 32 % WORD64 + h + c, q, WORD64);
  }

  /** `rate_limiter_hash`. */
  method Hash(ip: Bytes) returns (k: nat)
    ensures k == Slot(ip)
  {
    hide SignedChar;
    var hash: nat := 5381;
    var i := 0;
    assert ip[0..] == ip;
    while i < |ip|
      invariant i <= |ip| && HashFrom(hash, ip[i..]) == HashFrom(5381, ip)
    {
      ShiftAndAdd(hash, SignedChar(ip[i]));
      assert ip[i..][1..] == ip[i + 1..];
      hash := (hash * 32 % WORD64 + hash + SignedChar(ip[i])) % WORD64;
      i := i + 1;
    }
    k := hash % SIZE;
  }

  // --------------------------------------------------------- table as value

  datatype Table = Table(ips: seq<Bytes>, entries: seq<Entry>) {
    predicate Sized() { |ips| == SIZE && |entries| == SIZE }
  }

  /** The middleware's arithmetic: the counter is a 32-bit word. */
  function ServeWord(known: Option<Entry>, h: Hit, cfg: Config): Served {
    var base := if known.Some? then known.value else Entry(h.first, 0);
    var current := if h.now - base.windowStart >= cfg.window then Entry(h.now, 0) else base;
    var requests := (current.requests + 1) % WORD32;
    Served(Entry(current.windowStart, requests), requests <= cfg.max)
  }

  /** Who holds the slot of `ip`, if it is `ip`. */
  function Holder(tb: Table, ip: Bytes): Option<Entry>
    requires tb.Sized()
  {
    if tb.ips[Slot(ip)] == ip then Some(tb.entries[Slot(ip)]) else None
  }

  function TableServe(tb: Table, h: Hit, cfg: Config): Served
    requires tb.Sized()
  {
    ServeWord(Holder(tb, h.ip), h, cfg)
  }

  function TableNext(tb: Table, h: Hit, cfg: Config): (next: Table)
    requires tb.Sized()
    ensures next.Sized()
  {
    Table(tb.ips[Slot(h.ip) := h.ip], tb.entries[Slot(h.ip) := TableServe(tb, h, cfg).entry])
  }

  /** The zeroed static arrays. */
  function Zeroed(): (tb: Table)
    ensures tb.Sized()
  {
    Table(seq(SIZE, _ => NOBODY), seq(SIZE, _ => Entry(0, 0)))
  }

  function TableAfter(hits: seq<Hit>, cfg: Config): (tb: Table)
    ensures tb.Sized()
  {
    if hits == [] then Zeroed() else TableNext(TableAfter(hits[..|hits| - 1], cfg), hits[|hits| - 1], cfg)
  }

  // ------------------------------------------------------------ refinement

  /** No two clients share a slot. */
  predicate NoSharing(clients: set<Bytes>) {
    forall a, b :: a in clients && b in clients && Slot(a) == Slot(b) ==> a == b
  }

  /** Fewer than 2^32 requests fall in any one window. */
  predicate Quiet(hits: seq<Hit>, cfg: Config) {
    forall k :: 0 < k <= |hits| ==> ServedLast(hits[..k], cfg).entry.requests < WORD32
  }

  predicate FromClients(hits: seq<Hit>, clients: set<Bytes>) {
    forall i :: 0 <= i < |hits| ==> hits[i].ip in clients
  }

  predicate Agree(tb: Table, m: map<Bytes, Entry>, clients: set<Bytes>)
    requires tb.Sized()
  {
    forall ip :: ip in clients ==> Holder(tb, ip) == Known(m, ip)
  }

  /** One request keeps the table and the map in agreement, and gets the same verdict from both. */
  lemma AgreeStep(tb: Table, m: map<Bytes, Entry>, clients: set<Bytes>, h: Hit, cfg: Config)
    requires tb.Sized() && Agree(tb, m, clients) && NoSharing(clients) && h.ip in clients
    requires Serve(Known(m, h.ip), h, cfg).entry.requests < WORD32
    ensures TableServe(tb, h, cfg) == Serve(Known(m, h.ip), h, cfg)
    ensures Agree(TableNext(tb, h, cfg), m[h.ip := Serve(Known(m, h.ip), h, cfg).entry], clients)
  {
    hide Slot;
    assert Holder(tb, h.ip) == Known(m, h.ip);
    SmallCounter(Known(m, h.ip), h, cfg);
    hide ServeWord, Serve;
    var next, after := TableNext(tb, h, cfg), m[h.ip := Serve(Known(m, h.ip), h, cfg).entry];
    forall ip | ip in clients ensures Holder(next, ip) == Known(after, ip) {
      assert Holder(tb, ip) == Known(m, ip);
      assert ip != h.ip ==> Slot(ip) != Slot(h.ip);
    }
  }

  lemma SmallCounter(known: Option<Entry>, h: Hit, cfg: Config)
    requires Serve(known, h, cfg).entry.requests < WORD32
    ensures ServeWord(known, h, cfg) == Serve(known, h, cfg)
  {
  }

  lemma AgreeAtStart(clients: set<Bytes>)
    ensures Agree(Zeroed(), Initially(), clients)
  {
    hide Slot;
  }

  lemma QuietPrefix(hits: seq<Hit>, n: nat, cfg: Config)
    requires n <= |hits| && Quiet(hits, cfg)
    ensures Quiet(hits[..n], cfg)
  {
    hide ServedLast;
    forall k | 0 < k <= n ensures ServedLast(hits[..n][..k], cfg).entry.requests < WORD32 {
      assert hits[..n][..k] == hits[..k];
    }
  }

  /** Refinement over whole runs: the table always agrees with the unbounded map. */
  lemma {:induction false} TableAgrees(hits: seq<Hit>, clients: set<Bytes>, cfg: Config)
    requires NoSharing(clients) && FromClients(hits, clients) && Quiet(hits, cfg)
    ensures Agree(TableAfter(hits, cfg), MapAfter(hits, cfg), clients)
    ensures hits != [] ==>
      TableServe(TableAfter(hits[..|hits| - 1], cfg), hits[|hits| - 1], cfg) == ServedLast(hits, cfg)
  {
    hide Agree, NoSharing, TableServe, TableNext, Serve;
    if hits == [] {
      AgreeAtStart(clients);
    } else {
      var init, h := hits[..|hits| - 1], hits[|hits| - 1];
      assert hits[..|hits|] == hits;
      forall k | 0 < k <= |init| ensures ServedLast(init[..k], cfg).entry.requests < WORD32 {
        assert init[..k] == hits[..k];
      }
      TableAgrees(init, clients, cfg);
      AgreeStep(TableAfter(init, cfg), MapAfter(init, cfg), clients, h, cfg);
    }
  }

  // ---------------------------------------------------- why sharing matters

  /** The table answers the last request of a run as the map does. */
  ghost predicate Faithful(hits: seq<Hit>, cfg: Config) {
    hits != [] ==>
      TableServe(TableAfter(hits[..|hits| - 1], cfg), hits[|hits| - 1], cfg).admitted == ServedLast(hits, cfg).admitted
  }

  /** Two clients taking turns at one moment. */
  function Turns(a: Bytes, b: Bytes, n: nat): (hits: seq<Hit>)
    ensures |hits| == n && forall i :: 0 <= i < n ==> hits[i] == Hit(if i % 2 == 0 then a else b, 0, 0)
  {
    seq(n, i => Hit(if i % 2 == 0 then a else b, 0, 0))
  }

  function Seen(m: map<Bytes, Entry>, ip: Bytes): nat {
    if ip in m then m[ip].requests else 0
  }

  /** The map counts each of them. */
  lemma {:induction false} TurnsCounted(a: Bytes, b: Bytes, n: nat, cfg: Config)
    requires a != b && cfg.window > 0
    ensures var m := MapAfter(Turns(a, b, n), cfg);
            && Seen(m, a) == (n + 1) / 2 && Seen(m, b) == n / 2
            && (a in m ==> m[a].windowStart == 0) && (b in m ==> m[b].windowStart == 0)
    ensures n > 0 ==> ServedLast(Turns(a, b, n), cfg).entry.requests == (n + 1) / 2
  {
    hide Serve, Turns;
    if n > 0 {
      TurnsCounted(a, b, n - 1, cfg);
      TurnsLast(a, b, n);
      var m, x := MapAfter(Turns(a, b, n - 1), cfg), if n % 2 == 1 then a else b;
      SameMoment(Known(m, x), x, cfg);
      HalfStep(n);
    }
  }

  lemma TurnsLast(a: Bytes, b: Bytes, n: nat)
    requires n > 0
    ensures Turns(a, b, 0) == []
    ensures Turns(a, b, n)[..n - 1] == Turns(a, b, n - 1)
            && Turns(a, b, n)[n - 1] == Hit(if n % 2 == 1 then a else b, 0, 0)
  {
  }

  lemma SameMoment(known: Option<Entry>, ip: Bytes, cfg: Config)
    requires cfg.window > 0 && (known.Some? ==> known.value.windowStart == 0)
    ensures Serve(known, Hit(ip, 0, 0), cfg).entry == Entry(0, 1 + if known.Some? then known.value.requests else 0)
  {
  }

  lemma HalfStep(n: nat)
    requires n > 0
    ensures (n + 1) / 2 == n / 2 + n % 2 && n / 2 == (n - 1) / 2 + 1 - n % 2
  {
  }

  lemma LastHolder(hits: seq<Hit>, cfg: Config)
    requires hits != []
    ensures TableAfter(hits, cfg).ips[Slot(hits[|hits| - 1].ip)] == hits[|hits| - 1].ip
  {
    hide Slot, TableServe;
  }

  /** Each evicts the other, so the table never refuses the one whose turn it is again. */
  lemma TurnsNeverRefused(a: Bytes, b: Bytes, n: nat, cfg: Config)
    requires a != b && Slot(a) == Slot(b) && cfg.max > 0 && n > 1
    ensures var hits := Turns(a, b, n); TableServe(TableAfter(hits[..n - 1], cfg), hits[n - 1], cfg).admitted
  {
    hide Slot;
    var hits := Turns(a, b, n);
    LastHolder(hits[..n - 1], cfg);
    assert hits[..n - 1][n - 2].ip != hits[n - 1].ip;
    hide TableAfter;
  }

  /**
   On `2 * max + 1` turns the map refuses the last and the table admits it, and nothing else is
   unusual about the run.
   */
  lemma SharersUnfaithful(a: Bytes, b: Bytes, cfg: Config)
    requires a != b && Slot(a) == Slot(b) && cfg.max > 0 && cfg.window > 0 && cfg.max + 1 < WORD32
    ensures var hits := Turns(a, b, 2 * cfg.max + 1);
            FromClients(hits, {a, b}) && Monotone(hits) && Quiet(hits, cfg) && !Faithful(hits, cfg)
  {
    hide Slot, TableServe, TableAfter, ServedLast, MapAfter;
    var n := 2 * cfg.max + 1;
    var hits := Turns(a, b, n);
    forall k | 0 < k <= n ensures ServedLast(hits[..k], cfg).entry.requests < WORD32 {
      TurnsCounted(a, b, k, cfg);
      assert hits[..k] == Turns(a, b, k);
    }
    TurnsCounted(a, b, n, cfg);
    TurnsNeverRefused(a, b, n, cfg);
    Refused(hits, cfg);
  }

  lemma Refused(hits: seq<Hit>, cfg: Config)
    requires hits != []
    ensures ServedLast(hits, cfg).admitted <==> ServedLast(hits, cfg).entry.requests <= cfg.max
  {
    hide MapAfter;
  }

  /**
   The table is faithful to the map on every run of a set of clients, whatever their times, exactly
   when no two of them share a slot.
   */
  lemma FaithfulIffNoSharing(clients: set<Bytes>, cfg: Config)
    requires cfg.max > 0 && cfg.window > 0 && cfg.max + 1 < WORD32
    ensures NoSharing(clients) <==>
              forall hits :: FromClients(hits, clients) && Monotone(hits) && Quiet(hits, cfg) ==> Faithful(hits, cfg)
  {
    hide Slot, TableServe, TableAfter, ServedLast, MapAfter, Quiet, Monotone;
    if NoSharing(clients) {
      forall hits | FromClients(hits, clients) && Monotone(hits) && Quiet(hits, cfg) ensures Faithful(hits, cfg) {
        TableAgrees(hits, clients, cfg);
      }
    } else {
      var a, b :| a in clients && b in clients && Slot(a) == Slot(b) && a != b;
      SharersUnfaithful(a, b, cfg);
      var hits := Turns(a, b, 2 * cfg.max + 1);
      assert FromClients(hits, clients);
    }
  }

  lemma HashStep(h: nat, ip: Bytes)
    requires ip != [] && ip[0] < 128 && 33 * h + ip[0] < WORD64
    ensures HashFrom(h, ip) == HashFrom(33 * h + ip[0], ip[1..])
  {
  }

  lemma HashEmpty(h: nat)
    ensures HashFrom(h, []) == h
  {
  }

  lemma SlotOf(ip: Bytes, h: nat)
    requires h == HashFrom(5381, ip)
    ensures Slot(ip) == h % SIZE
  {
  }

  lemma SevenBytes(a: byte, b: byte, c: byte, d: byte, e: byte, f: byte, g: byte)
    requires a < 128 && b < 128 && c < 128 && d < 128 && e < 128 && f < 128 && g < 128
    ensures HashFrom(5381, [a, b, c, d, e, f, g])
         == 33 * (33 * (33 * (33 * (33 * (33 * (33 * 5381 + a) + b) + c) + d) + e) + f) + g
  {
    hide HashFrom;
    var h1 := 33 * 5381 + a;
    var h2 := 33 * h1 + b;
    var h3 := 33 * h2 + c;
    var h4 := 33 * h3 + d;
    var h5 := 33 * h4 + e;
    var h6 := 33 * h5 + f;
    HashStep(5381, [a, b, c, d, e, f, g]);
    assert [a, b, c, d, e, f, g][1..] == [b, c, d, e, f, g];
    HashStep(h1, [b, c, d, e, f, g]);
    assert [b, c, d, e, f, g][1..] == [c, d, e, f, g];
    HashStep(h2, [c, d, e, f, g]);
    assert [c, d, e, f, g][1..] == [d, e, f, g];
    HashStep(h3, [d, e, f, g]);
    assert [d, e, f, g][1..] == [e, f, g];
    HashStep(h4, [e, f, g]);
    assert [e, f, g][1..] == [f, g];
    HashStep(h5, [f, g]);
    assert [f, g][1..] == [g];
    HashStep(h6, [g]);
    assert [g][1..] == [];
    HashEmpty(33 * h6 + g);
  }

  /** The empty address falls in slot 1285, and a byte from 128 on counts as negative. */
  lemma ShortSlots()
    ensures Slot([]) == 1285 && Slot([0x61]) == 1542 && Slot([0xFF]) == 1444
  {
    assert (33 * 5381 + 0x61) % WORD64 == 177670 && (33 * 5381 - 1) % WORD64 == 177572;
    HashEmpty(177670);
    HashEmpty(177572);
    var a, b: Bytes := [0x61], [0xFF];
    assert a[1..] == [] && b[1..] == [];
  }

  /** Sharing is real: the addresses 1.0.2.1 and 1.1.0.2 fall in one slot. */
  lemma AddressesShare()
    ensures var a, b: Bytes := [0x31, 0x2E, 0x30, 0x2E, 0x32, 0x2E, 0x31], [0x31, 0x2E, 0x31, 0x2E, 0x30, 0x2E, 0x32];
            a != b && Slot(a) == Slot(b) == 1971
  {
    hide HashFrom, Slot;
    var a, b: Bytes := [0x31, 0x2E, 0x30, 0x2E, 0x32, 0x2E, 0x31], [0x31, 0x2E, 0x31, 0x2E, 0x30, 0x2E, 0x32];
    SevenBytes(0x31, 0x2E, 0x30, 0x2E, 0x32, 0x2E, 0x31);
    SevenBytes(0x31, 0x2E, 0x31, 0x2E, 0x30, 0x2E, 0x32);
    SlotOf(a, 229394982451123);
    SlotOf(b, 229394983634867);
    assert a[2] != b[2];
  }

  // ------------------------------------------------------- the middleware

  const IP_BUFFER := 64
  const CLIENT_IP := 46

  /** How many of these verdicts let `ip` through in the `window` seconds from `from`. */
  function LetThrough(hits: seq<Hit>, verdicts: seq<bool>, ip: Bytes, from: int, cfg: Config): nat
    requires |hits| == |verdicts|
  {
    if hits == [] then 0
    else
      var n := |hits| - 1;
      LetThrough(hits[..n], verdicts[..n], ip, from, cfg)
      + if hits[n].ip == ip && InWindow(hits[n].now, from, cfg) && verdicts[n] then 1 else 0
  }

  predicate MapVerdicts(hits: seq<Hit>, verdicts: seq<bool>, cfg: Config) {
    |verdicts| == |hits| && forall k :: 0 <= k < |hits| ==> verdicts[k] == ServedLast(hits[..k + 1], cfg).admitted
  }

  lemma {:induction false} LetThroughIs(hits: seq<Hit>, verdicts: seq<bool>, ip: Bytes, from: int, cfg: Config)
    requires MapVerdicts(hits, verdicts, cfg)
    ensures LetThrough(hits, verdicts, ip, from, cfg) == AdmittedIn(hits, ip, from, cfg)
  {
    hide ServedLast, InWindow;
    if hits != [] {
      var n := |hits| - 1;
      forall k | 0 <= k < n ensures verdicts[..n][k] == ServedLast(hits[..n][..k + 1], cfg).admitted {
        assert hits[..n][..k + 1] == hits[..k + 1];
      }
      LetThroughIs(hits[..n], verdicts[..n], ip, from, cfg);
      assert hits[..n + 1] == hits;
    }
  }

  /** The bounds of `RateLimit` carry over to any verdicts that are the map's. */
  lemma LetThroughBounded(hits: seq<Hit>, verdicts: seq<bool>, ip: Bytes, from: int, cfg: Config)
    requires MapVerdicts(hits, verdicts, cfg) && Monotone(hits)
    ensures LetThrough(hits, verdicts, ip, from, cfg) <= 2 * cfg.max
    ensures cfg.window == 1 ==> LetThrough(hits, verdicts, ip, from, cfg) <= cfg.max
    ensures SameReadings(hits) && ip != NOBODY && cfg.max > 0 ==>
            LetThrough(hits, verdicts, ip, from, cfg) <= 2 * cfg.max - 1
  {
    hide MapVerdicts, Monotone, SameReadings, AdmittedIn, LetThrough;
    LetThroughIs(hits, verdicts, ip, from, cfg);
    AtMostTwice(hits, ip, from, cfg);
    if cfg.window == 1 { AtMostOnce(hits, ip, from, cfg); }
  }

  lemma NothingYet(hits: seq<Hit>, cfg: Config)
    ensures TableAfter(hits[..0], cfg) == Zeroed()
  {
    hide Zeroed;
  }

  /** Request `i` of a run takes the table to its next state and gets the map's verdict. */
  lemma TurnAgrees(hits: seq<Hit>, i: nat, clients: set<Bytes>, cfg: Config)
    requires NoSharing(clients) && FromClients(hits, clients) && Quiet(hits, cfg) && i < |hits|
    ensures TableAfter(hits[..i + 1], cfg) == TableNext(TableAfter(hits[..i], cfg), hits[i], cfg)
    ensures TableServe(TableAfter(hits[..i], cfg), hits[i], cfg) == ServedLast(hits[..i + 1], cfg)
  {
    hide TableServe, TableNext, NoSharing, ServedLast, Zeroed, Quiet;
    var run := hits[..i + 1];
    assert run[..i] == hits[..i] && run[i] == hits[i];
    QuietPrefix(hits, i + 1, cfg);
    TableAgrees(run, clients, cfg);
  }

  lemma EveryoneBounded(hits: seq<Hit>, verdicts: seq<bool>, cfg: Config)
    requires |hits| == |verdicts| && MapVerdicts(hits, verdicts, cfg) && Monotone(hits)
    ensures forall ip, from ::
              LetThrough(hits, verdicts, ip, from, cfg) <= (if cfg.window == 1 then cfg.max else 2 * cfg.max)
  {
    hide MapVerdicts, Monotone, LetThrough;
    forall ip, from
      ensures LetThrough(hits, verdicts, ip, from, cfg) <= (if cfg.window == 1 then cfg.max else 2 * cfg.max)
    {
      LetThroughBounded(hits, verdicts, ip, from, cfg);
    }
  }

  /** Verdicts that are the map's never refuse a request while its client keeps within the limit. */
  lemma ModestAdmitted(hits: seq<Hit>, verdicts: seq<bool>, k: nat, cfg: Config)
    requires MapVerdicts(hits, verdicts, cfg) && Monotone(hits) && cfg.window > 0 && k < |hits|
    requires RequestsSince(hits[..k + 1], hits[k].ip, hits[k].now - cfg.window + 1) <= cfg.max
    ensures verdicts[k]
  {
    hide RequestsSince, ServedLast;
    var run := hits[..k + 1];
    assert Monotone(run) && run[|run| - 1] == hits[k];
    WithinLimit(run, cfg);
  }

  class Limiter {
    const ips: array<Bytes>
    const entries: array<Entry>
    var maxRequests: nat
    var windowSec: nat

    ghost predicate Valid() { ips.Length == SIZE && entries.Length == SIZE }

    ghost function View(): (tb: Table)
      requires Valid()
      reads ips, entries
      ensures tb.Sized()
    {
      Table(ips[..], entries[..])
    }

    ghost function Limits(): Config
      reads this
    {
      Config(maxRequests, windowSec)
    }

    /** Zeroed tables and the built-in limits: five requests a second. */
    constructor ()
      ensures Valid() && fresh(ips) && fresh(entries) && View() == Zeroed() && Limits() == Config(5, 1)
    {
      ips := new Bytes[SIZE](_ => NOBODY);
      entries := new Entry[SIZE](_ => Entry(0, 0));
      maxRequests, windowSec := 5, 1;
    }

    /** `cHTTPX_MiddlewareRateLimiter`: the limits are stored in 8 and 16 bits. */
    method Configure(max: nat, window: nat)
      modifies this
      ensures Limits() == Config(max % 0x100, window % 0x1_0000)
    {
      maxRequests := max % 0x100;
      windowSec := window % 0x1_0000;
    }

    /**
     `rate_limiter_middleware` under its lock. The client address fits the 46-byte field of the
     request, so copying it into a 64-byte table row never cuts it.
     */
    method Admit(ip: Bytes, first: int, now: int) returns (admitted: bool)
      requires Valid() && |ip| < CLIENT_IP
      modifies ips, entries
      ensures View() == TableNext(old(View()), Hit(ip, first, now), Limits())
      ensures admitted == TableServe(old(View()), Hit(ip, first, now), Limits()).admitted
    {
      hide Slot;
      var k := Hash(ip);
      ghost var before := View();
      if ips[k] != ip {
        ips[k] := Clamp(ip, IP_BUFFER);
        entries[k] := Entry(first, 0);
      }
      if now - entries[k].windowStart >= windowSec {
        entries[k] := Entry(now, 0);
      }
      entries[k] := Entry(entries[k].windowStart, (entries[k].requests + 1) % WORD32);
      admitted := entries[k].requests <= maxRequests;
      assert ips[..] == before.ips[k := ip];
      assert entries[..] == before.entries[k := TableServe(before, Hit(ip, first, now), Limits()).entry];
    }

    /**
     A run of requests on a fresh table gets the verdicts of the unbounded per-client map, so with a
     monotone clock any window's worth of seconds lets at most twice the limit of one client through,
     and any second at most the limit when windows last one second, while a client that keeps within
     the limit is never refused.
     */
    method AdmitAll(hits: seq<Hit>, ghost clients: set<Bytes>) returns (verdicts: seq<bool>)
      requires Valid() && View() == Zeroed()
      requires NoSharing(clients) && FromClients(hits, clients) && Quiet(hits, Limits())
      requires forall i :: 0 <= i < |hits| ==> |hits[i].ip| < CLIENT_IP
      modifies ips, entries
      ensures MapVerdicts(hits, verdicts, Limits())
      ensures Monotone(hits) ==> forall ip, from ::
                LetThrough(hits, verdicts, ip, from, Limits()) 
                <= (if windowSec == 1 then maxRequests else 2 * maxRequests)
      ensures Monotone(hits) && windowSec > 0 ==> forall k :: 0 <= k < |hits| ==>
                RequestsSince(hits[..k + 1], hits[k].ip, hits[k].now - windowSec + 1) <= maxRequests ==> verdicts[k]
    {
      hide TableServe, TableNext, TableAfter, NoSharing, ServedLast, Zeroed, LetThrough, Monotone, Quiet, FromClients,
           RequestsSince;
      verdicts := [];
      NothingYet(hits, Limits());
      var i := 0;
      while i < |hits|
        invariant i == |verdicts| <= |hits| && View() == TableAfter(hits[..i], Limits())
        invariant forall k :: 0 <= k < i ==> verdicts[k] == ServedLast(hits[..k + 1], Limits()).admitted
      {
        TurnAgrees(hits, i, clients, Limits());
        var ok := Admit(hits[i].ip, hits[i].first, hits[i].now);
        assert hits[i] == Hit(hits[i].ip, hits[i].first, hits[i].now);
        verdicts := verdicts + [ok];
        i := i + 1;
      }
      if Monotone(hits) {
        EveryoneBounded(hits, verdicts, Limits());
        forall k | 0 <= k < |hits| && windowSec > 0
            && RequestsSince(hits[..k + 1], hits[k].ip, hits[k].now - windowSec + 1) <= maxRequests
          ensures verdicts[k]
        {
          ModestAdmitted(hits, verdicts, k, Limits());
        }
      }
    }
  }
}
