/** The password-attempt limiter: a token bucket per peer, eviction of the least recently seen peer,
    and a global pool of work slots. Times and durations are nanoseconds; token arithmetic is exact. */
module AttemptLimiter {
  import opened Options

  const SECOND: int := 1_000_000_000
  const MAX_DURATION: int := 0x7fff_ffff_ffff_ffff

  const DEFAULT_BURST: int := 10
  const DEFAULT_REFILL: int := 6 * SECOND
  const DEFAULT_MAX_PEERS: int := 4096
  const DEFAULT_MAX_CONCURRENT: int := 4

  datatype Config = Config(burst: int, refill: int, maxPeers: int, maxConcurrent: int)

  predicate ValidConfig(c: Config) {
    c.burst > 0 && 0 < c.refill <= MAX_DURATION && c.maxPeers > 0 && c.maxConcurrent > 0
  }

  /** Non-positive settings fall back to the defaults. */
  function WithDefaults(c: Config): Config {
    Config(if c.burst <= 0 then DEFAULT_BURST else c.burst,
           if c.refill <= 0 then DEFAULT_REFILL else c.refill,
           if c.maxPeers <= 0 then DEFAULT_MAX_PEERS else c.maxPeers,
           if c.maxConcurrent <= 0 then DEFAULT_MAX_CONCURRENT else c.maxConcurrent)
  }

  datatype Peer = Peer(tokens: real, updated: int, lastSeen: int)

  // ---- One bucket ----

  /** time.Time.Sub saturates. */
  function Sub(a: int, b: int): int {
    if a - b > MAX_DURATION then MAX_DURATION
    else if a - b < -MAX_DURATION - 1 then -MAX_DURATION - 1
    else a - b
  }

  function Fresh(c: Config, now: int): Peer {
    Peer(c.burst as real, now, now)
  }

  function Refilled(c: Config, p: Peer, now: int): Peer
    requires c.refill > 0
  {
    var elapsed := Sub(now, p.updated);
    if elapsed > 0 then
      var tokens := p.tokens + elapsed as real / c.refill as real;
      Peer(if tokens > c.burst as real then c.burst as real else tokens, now, now)
    else p.(lastSeen := now)
  }

  /** An attempt at time now takes a token. */
  predicate Takes(c: Config, p: Peer, now: int)
    requires c.refill > 0
  {
    Refilled(c, p, now).tokens >= 1.0
  }

  function AfterAttempt(c: Config, p: Peer, now: int): Peer
    requires c.refill > 0
  {
    var q := Refilled(c, p, now);
    if q.tokens < 1.0 then q else q.(tokens := q.tokens - 1.0)
  }

  /** The wait announced to a refused attempt, q being the refilled bucket. */
  function RetryAfter(c: Config, q: Peer): int {
    var retry := ((1.0 - q.tokens) * c.refill as real).Floor;
    if retry < SECOND then SECOND else retry
  }

  predicate InRange(c: Config, p: Peer) {
    0.0 <= p.tokens <= c.burst as real
  }

  /** A token taken or kept is paid for by the burst or by elapsed time. */
  lemma AttemptPays(c: Config, p: Peer, now: int)
    requires ValidConfig(c) && InRange(c, p)
    ensures InRange(c, AfterAttempt(c, p, now))
    ensures AfterAttempt(c, p, now).updated >= p.updated
    ensures var q := AfterAttempt(c, p, now);
            q.tokens + (if Takes(c, p, now) then 1.0 else 0.0) <=
            p.tokens + (q.updated - p.updated) as real / c.refill as real
  {
    var elapsed := Sub(now, p.updated);
    if elapsed > 0 {
      var advance := now - p.updated;
      DivMonotone(elapsed as real, advance as real, c.refill as real);
      DivMonotone(0.0, elapsed as real, c.refill as real);
    } else {
      assert 0.0 / c.refill as real == 0.0;
    }
  }

  lemma DivMonotone(a: real, b: real, r: real)
    requires a <= b && r > 0.0
    ensures a / r <= b / r
  {
  }

  // ---- Integer credits ----

  /** The same bucket counted in nanoseconds of refill: tokens times the refill interval. */
  datatype Credits = Credits(credit: int, updated: int)

  predicate Represents(c: Config, k: Credits, p: Peer) {
    p.tokens * c.refill as real == k.credit as real && k.updated == p.updated
  }

  /** A full bucket, in nanoseconds. */
  function Full(c: Config): int { c.burst * c.refill }

  function CreditsRefilled(full: int, k: Credits, now: int): Credits {
    var elapsed := Sub(now, k.updated);
    if elapsed > 0 then Credits(if k.credit + elapsed > full then full else k.credit + elapsed, now) else k
  }

  function CreditsAfterAttempt(full: int, refill: int, k: Credits, now: int): Credits {
    var q := CreditsRefilled(full, k, now);
    if q.credit < refill then q else q.(credit := q.credit - refill)
  }

  /** The nanoseconds a refused attempt is short of a token. */
  function Missing(full: int, refill: int, k: Credits, now: int): int {
    refill - CreditsRefilled(full, k, now).credit
  }

  function AtLeastASecond(d: int): int { if d < SECOND then SECOND else d }

  lemma ScaledOrder(x: real, y: real, r: real)
    requires r > 0.0
    ensures x < y <==> x * r < y * r
  {
  }

  lemma RefillRefines(c: Config, k: Credits, p: Peer, now: int)
    requires ValidConfig(c) && Represents(c, k, p)
    ensures Represents(c, CreditsRefilled(Full(c), k, now), Refilled(c, p, now))
  {
    var elapsed := Sub(now, p.updated);
    if elapsed > 0 {
      var r := c.refill as real;
      var tokens := p.tokens + elapsed as real / r;
      assert tokens * r == p.tokens * r + elapsed as real by {
        assert elapsed as real / r * r == elapsed as real;
      }
      ScaledOrder(c.burst as real, tokens, r);
      BurstScaled(c);
    }
  }

  lemma BurstScaled(c: Config)
    ensures c.burst as real * c.refill as real == Full(c) as real
  {
  }

  /** One token against a bucket, scaled by the refill interval. */
  lemma ScaledToken(t: real, refill: int, credit: int)
    requires refill > 0 && t * refill as real == credit as real
    ensures t < 1.0 <==> credit < refill
    ensures (t - 1.0) * refill as real == (credit - refill) as real
    ensures ((1.0 - t) * refill as real).Floor == refill - credit
  {
    var r := refill as real;
    ScaledOrder(t, 1.0, r);
    assert (t - 1.0) * r == t * r - r;
    assert (1.0 - t) * r == r - t * r;
  }

  /** The integer form and the fractional form take the same decisions and stay in step: tokens times
      refill interval is always a whole number of nanoseconds. */
  lemma CreditsRefine(c: Config, k: Credits, p: Peer, now: int)
    requires ValidConfig(c) && Represents(c, k, p)
    ensures Takes(c, p, now) <==> Missing(Full(c), c.refill, k, now) <= 0
    ensures Represents(c, CreditsAfterAttempt(Full(c), c.refill, k, now), AfterAttempt(c, p, now))
    ensures RetryAfter(c, Refilled(c, p, now)) == AtLeastASecond(Missing(Full(c), c.refill, k, now))
  {
    RefillRefines(c, k, p, now);
    var q, kq := Refilled(c, p, now), CreditsRefilled(Full(c), k, now);
    TokenRefines(c, kq, q);
  }

  lemma TokenRefines(c: Config, kq: Credits, q: Peer)
    requires ValidConfig(c) && Represents(c, kq, q)
    ensures q.tokens >= 1.0 <==> c.refill - kq.credit <= 0
    ensures Represents(c, if kq.credit < c.refill then kq else kq.(credit := kq.credit - c.refill),
                       if q.tokens < 1.0 then q else q.(tokens := q.tokens - 1.0))
    ensures RetryAfter(c, q) == AtLeastASecond(c.refill - kq.credit)
  {
    ScaledToken(q.tokens, c.refill, kq.credit);
  }

  lemma FreshRepresents(c: Config, now: int)
    ensures Represents(c, Credits(Full(c), now), Fresh(c, now))
  {
    BurstScaled(c);
  }

  lemma CreditsRetry(full: int, refill: int, k: Credits, now: int, later: int)
    requires 0 < refill <= full && refill <= MAX_DURATION && k.updated <= now <= later && 0 <= k.credit
    requires Missing(full, refill, k, now) > 0
    ensures var q := CreditsAfterAttempt(full, refill, k, now);
            Missing(full, refill, q, later) <= 0 <==> later - now >= Missing(full, refill, k, now)
  {
  }

  /** The retry hint is exact. A refused peer whose clock does not run backwards passes the token check
      on its next attempt exactly when it has waited the missing nanoseconds; the hint is that wait,
      but never under a second. */
  lemma RetryHintIsExact(c: Config, k: Credits, p: Peer, now: int, later: int)
    requires ValidConfig(c) && Represents(c, k, p) && p.updated <= now <= later && 0 <= k.credit
    requires !Takes(c, p, now)
    ensures var missing := Missing(Full(c), c.refill, k, now); var q := AfterAttempt(c, p, now);
            && (Takes(c, q, later) <==> later - now >= missing)
            && RetryAfter(c, q) == AtLeastASecond(missing)
            && (later - now >= RetryAfter(c, q) ==> Takes(c, q, later))
  {
    CreditsRefine(c, k, p, now);
    CreditsRefine(c, CreditsAfterAttempt(Full(c), c.refill, k, now), AfterAttempt(c, p, now), later);
    FullHoldsAToken(c);
    CreditsRetry(Full(c), c.refill, k, now, later);
  }

  /** The bucket after n attempts at one moment. */
  function AfterAttempts(c: Config, p: Peer, now: int, n: nat): Peer
    requires c.refill > 0
  {
    if n == 0 then p else AfterAttempt(c, AfterAttempts(c, p, now, n - 1), now)
  }

  lemma {:induction false} BurstLeft(c: Config, now: int, n: nat)
    requires ValidConfig(c)
    ensures AfterAttempts(c, Fresh(c, now), now, n) ==
            Fresh(c, now).(tokens := if n <= c.burst then (c.burst - n) as real else 0.0)
  {
    if n > 0 { BurstLeft(c, now, n - 1); }
  }

  /** A new peer has exactly burst attempts at one moment: the first burst ones pass the token check and no
      later one does. */
  lemma BurstIsAvailable(c: Config, now: int, n: nat)
    requires ValidConfig(c)
    ensures Takes(c, AfterAttempts(c, Fresh(c, now), now, n), now) <==> n < c.burst
  {
    BurstLeft(c, now, n);
  }

  lemma FullHoldsAToken(c: Config)
    requires ValidConfig(c)
    ensures Full(c) >= c.refill
  {
    assert (c.burst - 1) * c.refill >= 0;
  }

  // ---- Peer keys ----

  function TrimLeft(s: string, cut: set<char>): string {
    if s != "" && s[0] in cut then TrimLeft(s[1..], cut) else s
  }

  function TrimRight(s: string, cut: set<char>): string {
    if s != "" && s[|s| - 1] in cut then TrimRight(s[..|s| - 1], cut) else s
  }

  function Trim(s: string, cut: set<char>): string { TrimRight(TrimLeft(s, cut), cut) }

  const WHITE_SPACE: set<char> := {' ', '\t', '\n', '\r', '\U{0B}', '\U{0C}', '\U{85}', '\U{A0}'}

  function MapChars(s: string, f: char -> char): (r: string)
    ensures |r| == |s|
  {
    if s == "" then "" else [f(s[0])] + MapChars(s[1..], f)
  }

  /** split is net.SplitHostPort's host, if it parses; lower maps one character to lower case. The key
      is never empty, which eviction relies on. */
  function NormalizeAttemptPeer(peer: string, split: string -> Option<string>, lower: char -> char): (key: string)
    ensures key != ""
  {
    var trimmed := Trim(peer, WHITE_SPACE);
    var host := match split(trimmed) case Some(h) => h case None => trimmed;
    var bare := Trim(host, {'[', ']'});
    if bare == "" then "unknown" else MapChars(bare, lower)
  }

  predicate AllIn(s: string, cut: set<char>) {
    forall c :: c in s ==> c in cut
  }

  /** t neither starts nor ends with one of the characters. */
  predicate Bare(t: string, cut: set<char>) {
    t != "" ==> t[0] !in cut && t[|t| - 1] !in cut
  }

  lemma {:induction false} TrimsLeft(x: string, t: string, cut: set<char>)
    requires AllIn(x, cut) && (t != "" ==> t[0] !in cut)
    ensures TrimLeft(x + t, cut) == t
  {
    if x == "" {
      assert x + t == t;
    } else {
      assert x[0] in x;
      TrimsLeft(x[1..], t, cut);
      assert (x + t)[1..] == x[1..] + t;
    }
  }

  lemma {:induction false} TrimsRight(t: string, y: string, cut: set<char>)
    requires AllIn(y, cut) && (t != "" ==> t[|t| - 1] !in cut)
    ensures TrimRight(t + y, cut) == t
  {
    if y == "" {
      assert t + y == t;
    } else {
      var n := |y| - 1;
      assert y[n] in y;
      TrimsRight(t, y[..n], cut);
      assert (t + y)[..|t + y| - 1] == t + y[..n];
    }
  }

  /** Trimming takes off exactly the characters around. */
  lemma Trims(x: string, t: string, y: string, cut: set<char>)
    requires AllIn(x, cut) && AllIn(y, cut) && Bare(t, cut)
    ensures Trim(x + t + y, cut) == t
  {
    if t == "" {
      TrimsLeft(x + y, "", cut);
      assert x + t + y == x + y + "";
      assert TrimRight("", cut) == "";
    } else {
      TrimsLeft(x, t + y, cut);
      assert x + t + y == x + (t + y);
      TrimsRight(t, y, cut);
    }
  }

  lemma {:induction false} MapsEach(s: string, f: char -> char, i: nat)
    requires i < |s|
    ensures MapChars(s, f)[i] == f(s[i])
  {
    if i > 0 { MapsEach(s[1..], f, i - 1); }
  }

  /** The key in full: blanks around the peer do not count, nor does its port if it has one, nor do
      brackets around the host; what is left is lower-cased, and if nothing is the key is "unknown". */
  lemma PeerKeyExactly(x: string, peer: string, y: string, host: string, open: string, bare: string, close: string,
                       split: string -> Option<string>, lower: char -> char)
    requires AllIn(x, WHITE_SPACE) && AllIn(y, WHITE_SPACE) && Bare(peer, WHITE_SPACE)
    requires host == if split(peer).Some? then split(peer).value else peer
    requires host == open + bare + close && Bare(bare, {'[', ']'})
    requires AllIn(open, {'[', ']'}) && AllIn(close, {'[', ']'})
    ensures var key := NormalizeAttemptPeer(x + peer + y, split, lower);
            if bare == "" then key == "unknown"
            else |key| == |bare| && forall i :: 0 <= i < |bare| ==> key[i] == lower(bare[i])
  {
    Trims(x, peer, y, WHITE_SPACE);
    Trims(open, bare, close, {'[', ']'});
    forall i | 0 <= i < |bare| ensures MapChars(bare, lower)[i] == lower(bare[i]) { MapsEach(bare, lower, i); }
  }

  /** One host is one peer, whatever port an attempt comes from. */
  lemma PortsShareAKey(peer: string, other: string, host: string, split: string -> Option<string>, lower: char -> char)
    requires Bare(peer, WHITE_SPACE) && Bare(other, WHITE_SPACE)
    requires split(peer) == Some(host) && split(other) == Some(host)
    ensures NormalizeAttemptPeer(peer, split, lower) == NormalizeAttemptPeer(other, split, lower)
  {
    Trims("", peer, "", WHITE_SPACE);
    Trims("", other, "", WHITE_SPACE);
    assert "" + peer + "" == peer && "" + other + "" == other;
  }

  // ---- The limiter ----

  type Peers = map<string, Peer>

  predicate LeastRecentlySeen(peers: Peers, key: string) {
    key in peers && forall k :: k in peers ==> peers[key].lastSeen <= peers[k].lastSeen
  }

  /** The peers left to make room for key: everyone, unless a new key meets a full table. */
  ghost predicate MakesRoom(c: Config, peers: Peers, key: string, left: Peers) {
    if key in peers || |peers| < c.maxPeers then left == peers
    else exists victim :: LeastRecentlySeen(peers, victim) && left == peers - {victim}
  }

  function EntryFor(c: Config, peers: Peers, key: string, now: int): Peer {
    if key in peers then peers[key] else Fresh(c, now)
  }

  /** waiting counts the attempts that have taken a token and not yet tried for a slot: the limiter's lock
      is free in between. */
  datatype Limiter = Limiter(peers: Peers, slots: nat, waiting: nat)

  /** The part of an attempt under the lock. */
  ghost predicate TokenStep(c: Config, l: Limiter, key: string, now: int, l': Limiter)
    requires c.refill > 0
  {
    var p := EntryFor(c, l.peers, key, now);
    && (exists left :: MakesRoom(c, l.peers, key, left) && l'.peers == left[key := AfterAttempt(c, p, now)])
    && l'.slots == l.slots && l'.waiting == if Takes(c, p, now) then l.waiting + 1 else l.waiting
  }

  /** The part after it: a slot if there is one. A token is not given back. */
  predicate SlotStep(c: Config, l: Limiter, l': Limiter) {
    l.waiting > 0 &&
    l' == l.(waiting := l.waiting - 1, slots := if l.slots < c.maxConcurrent then l.slots + 1 else l.slots)
  }

  /** Both parts with nothing in between. */
  ghost predicate AttemptStep(c: Config, l: Limiter, key: string, now: int, l': Limiter)
    requires c.refill > 0
  {
    exists mid :: TokenStep(c, l, key, now, mid) &&
      if Takes(c, EntryFor(c, l.peers, key, now), now) then SlotStep(c, mid, l') else l' == mid
  }

  /** The scan of evictOldestLocked over the peers in some order, "" standing for none yet. */
  function ScanOldest(peers: Peers, order: seq<string>): string
    requires forall k :: k in order ==> k in peers
  {
    if order == [] then ""
    else
      var n := |order| - 1;
      var best := ScanOldest(peers, order[..n]);
      if best == "" || (best in peers && peers[order[n]].lastSeen < peers[best].lastSeen) then order[n] else best
  }

  /** Without an empty key, the scan finds a least recently seen peer in every order. */
  lemma {:induction false} ScanFindsOldest(peers: Peers, order: seq<string>)
    requires "" !in peers && forall k :: k in order ==> k in peers
    ensures order == [] ==> ScanOldest(peers, order) == ""
    ensures order != [] ==> var best := ScanOldest(peers, order);
                            best in order && forall k :: k in order ==> peers[best].lastSeen <= peers[k].lastSeen
  {
    if order != [] {
      ScanFindsOldest(peers, order[..|order| - 1]);
      assert order == order[..|order| - 1] + [order[|order| - 1]];
    }
  }

  /** With an empty key it need not: the older peer under "" is passed over. */
  lemma EmptyKeyMisleadsScan()
    ensures var peers := map["" := Peer(0.0, 0, 1), "a" := Peer(0.0, 0, 2)];
            ScanOldest(peers, ["", "a"]) == "a" && !LeastRecentlySeen(peers, "a")
  {
    var peers := map["" := Peer(0.0, 0, 1), "a" := Peer(0.0, 0, 2)];
    assert ["", "a"][..1] == [""];
    assert ScanOldest(peers, [""]) == "";
    assert "" in peers;
  }

  class AttemptPermit {
    const limiter: AttemptLimiter?
    var done: bool

    constructor (limiter: AttemptLimiter?)
      ensures this.limiter == limiter && !done
    {
      this.limiter := limiter;
      done := false;
    }

    /** Release is idempotent: only the first one frees the slot. A permit of no limiter frees none. */
    method Release()
      requires limiter != null ==> limiter.Valid() && this in limiter.issued
      modifies this, limiter
      ensures done
      ensures limiter != null ==>
                && limiter.Valid() && limiter.peers == old(limiter.peers) && limiter.issued == old(limiter.issued)
                && limiter.slots == old(limiter.slots) - (if old(done) then 0 else 1)
    {
      if !done {
        done := true;
        if limiter != null {
          limiter.slots := limiter.slots - 1;
          limiter.live := limiter.live - {this};
        }
      }
    }
  }

  class AttemptLimiter {
    const config: Config
    var peers: Peers
    var slots: nat
    ghost var issued: set<AttemptPermit>
    ghost var live: set<AttemptPermit>

    /** Unreleased permits are the occupied slots; both tables stay within their bounds. */
    ghost predicate Valid()
      reads this, issued
    {
      && ValidConfig(config)
      && PeersOK()
      && live <= issued && (forall p :: p in issued ==> p.limiter == this && (p in live <==> !p.done))
      && slots == |live| <= config.maxConcurrent
    }

    function State(): Limiter
      reads this
    {
      Limiter(peers, slots, 0)
    }

    constructor (c: Config)
      requires c.refill <= MAX_DURATION
      ensures Valid() && config == WithDefaults(c) && State() == Limiter(map[], 0, 0) && issued == {}
      ensures c.burst <= 0 ==> config.burst == 10
      ensures c.refill <= 0 ==> config.refill == 6_000_000_000
      ensures c.maxPeers <= 0 ==> config.maxPeers == 4096
      ensures c.maxConcurrent <= 0 ==> config.maxConcurrent == 4
    {
      config := WithDefaults(c);
      peers, slots := map[], 0;
      issued, live := {}, {};
    }

    /** Go visits a map in no particular order. */
    method EvictOldest()
      requires "" !in peers
      modifies this`peers
      ensures old(peers) == map[] ==> peers == map[]
      ensures old(peers) != map[] ==>
                exists victim :: LeastRecentlySeen(old(peers), victim) && peers == old(peers) - {victim}
    {
      var oldestKey, rest := "", peers.Keys;
      ghost var order: seq<string> := [];
      while rest != {}
        invariant peers == old(peers) && rest <= peers.Keys
        invariant forall k :: k in order <==> k in peers.Keys - rest
        invariant oldestKey == ScanOldest(peers, order)
      {
        var key :| key in rest;
        ScanFindsOldest(peers, order);
        assert (order + [key])[..|order|] == order;
        if oldestKey == "" || peers[key].lastSeen < peers[oldestKey].lastSeen {
          oldestKey := key;
        }
        order := order + [key];
        rest := rest - {key};
      }
      ScanFindsOldest(peers, order);
      if oldestKey != "" {
        assert LeastRecentlySeen(peers, oldestKey);
        peers := peers - {oldestKey};
      } else {
        assert order == [];
        assert peers.Keys == {};
      }
    }

    ghost predicate PeersOK()
      reads this
    {
      "" !in peers && |peers| <= config.maxPeers && forall k :: k in peers ==> InRange(config, peers[k])
    }

    /** Room for one more peer, made by evicting if need be. */
    method MakeRoomFor(key: string)
      requires ValidConfig(config) && PeersOK()
      modifies this`peers
      ensures MakesRoom(config, old(peers), key, peers)
    {
      if key !in peers && |peers| >= config.maxPeers {
        EvictOldest();
      }
    }

    /** The part of Acquire under the mutex. */
    method TakeToken(key: string, now: int) returns (taken: bool, retry: int)
      requires ValidConfig(config) && PeersOK() && key != ""
      modifies this`peers
      ensures PeersOK()
      ensures var p := EntryFor(config, old(peers), key, now);
              && (exists left :: MakesRoom(config, old(peers), key, left) &&
                                 peers == left[key := AfterAttempt(config, p, now)])
              && taken == Takes(config, p, now)
              && retry == (if taken then 0 else RetryAfter(config, Refilled(config, p, now)))
    {
      ghost var before := peers;
      MakeRoomFor(key);
      ghost var left := peers;
      var p := if key in peers then peers[key] else Fresh(config, now);
      RoomLeft(config, before, key, left, AfterAttempt(config, p, now));
      AttemptPays(config, p, now);
      var q := Refilled(config, p, now);
      if q.tokens < 1.0 {
        taken, retry := false, RetryAfter(config, q);
      } else {
        q := q.(tokens := q.tokens - 1.0);
        taken, retry := true, 0;
      }
      assert q == AfterAttempt(config, p, now);
      peers := peers[key := q];
    }

    method Acquire(peer: string, now: int, split: string -> Option<string>, lower: char -> char)
      returns (permit: AttemptPermit?, retry: int, ok: bool)
      requires Valid()
      modifies this
      ensures Valid()
      ensures var key := NormalizeAttemptPeer(peer, split, lower);
              AttemptStep(config, old(State()), key, now, State())
      ensures var p := EntryFor(config, old(peers), NormalizeAttemptPeer(peer, split, lower), now);
              && (ok <==> Takes(config, p, now) && old(slots) < config.maxConcurrent)
              && retry == (if ok then 0 else if Takes(config, p, now) then SECOND
                           else RetryAfter(config, Refilled(config, p, now)))
      ensures if ok then permit != null && fresh(permit) && !permit.done && issued == old(issued) + {permit}
              else permit == null && issued == old(issued)
      ensures ok || retry >= SECOND
    {
      var key := NormalizeAttemptPeer(peer, split, lower);
      var taken;
      ghost var before := State();
      taken, retry := TakeToken(key, now);
      ghost var mid := Limiter(peers, slots, if taken then 1 else 0);
      assert TokenStep(config, before, key, now, mid);
      if !taken {
        permit, ok := null, false;
      } else if slots < config.maxConcurrent {
        permit := new AttemptPermit(this);
        slots := slots + 1;
        issued, live := issued + {permit}, live + {permit};
        ok := true;
      } else {
        permit, retry, ok := null, SECOND, false;
      }
    }
  }

  lemma RoomLeft(c: Config, peers: Peers, key: string, left: Peers, q: Peer)
    requires c.maxPeers > 0 && |peers| <= c.maxPeers && MakesRoom(c, peers, key, left)
    ensures |left[key := q]| <= c.maxPeers
    ensures forall k :: k in left ==> k in peers && left[k] == peers[k]
    ensures key in left <==> key in peers
  {
    assert left[key := q].Keys == left.Keys + {key};
    if key in peers {
      assert left.Keys + {key} == left.Keys;
    } else if |peers| >= c.maxPeers {
      var victim :| LeastRecentlySeen(peers, victim) && left == peers - {victim};
      assert left.Keys == peers.Keys - {victim};
    }
  }

  // ---- Whole runs ----

  /** What happens to a limiter: an attempt by a peer at some clock reading goes through the lock, an
      attempt that has its token tries for a slot, or a slot is given back. */
  datatype Event = Attempt(key: string, now: int) | SlotTried | SlotFreed

  ghost predicate LimiterStep(c: Config, l: Limiter, e: Event, l': Limiter)
    requires c.refill > 0
  {
    match e
    case Attempt(key, now) => key != "" && TokenStep(c, l, key, now, l')
    case SlotTried => SlotStep(c, l, l')
    case SlotFreed => l.slots > 0 && l' == l.(slots := l.slots - 1)
  }

  ghost predicate Trace(c: Config, states: seq<Limiter>, events: seq<Event>)
    requires c.refill > 0
  {
    && |states| == |events| + 1 && states[0] == Limiter(map[], 0, 0)
    && forall i :: 0 <= i < |events| ==> LimiterStep(c, states[i], events[i], states[i + 1])
  }

  predicate LimiterOK(c: Config, l: Limiter) {
    && "" !in l.peers && |l.peers| <= c.maxPeers && l.slots <= c.maxConcurrent
    && forall k :: k in l.peers ==> InRange(c, l.peers[k])
  }

  lemma StepKeepsOK(c: Config, l: Limiter, e: Event, l': Limiter)
    requires ValidConfig(c) && LimiterOK(c, l) && LimiterStep(c, l, e, l')
    ensures LimiterOK(c, l')
  {
    if e.Attempt? {
      var p := EntryFor(c, l.peers, e.key, e.now);
      var q := AfterAttempt(c, p, e.now);
      var left :| MakesRoom(c, l.peers, e.key, left) && l'.peers == left[e.key := q];
      AttemptPays(c, p, e.now);
      RoomLeft(c, l.peers, e.key, left, q);
    }
  }

  /** In every run, clocks going backwards included: tokens stay between 0 and the burst, peers within
      MaxPeers, occupied slots within MaxConcurrent. */
  lemma {:induction false} EveryStateIsOK(c: Config, states: seq<Limiter>, events: seq<Event>, i: nat)
    requires ValidConfig(c) && Trace(c, states, events) && i <= |events|
    ensures LimiterOK(c, states[i])
  {
    if i > 0 {
      EveryStateIsOK(c, states, events, i - 1);
      StepKeepsOK(c, states[i - 1], events[i - 1], states[i]);
    }
  }

  /** The tokens one peer takes between two points of a run. */
  function TakenBy(c: Config, states: seq<Limiter>, events: seq<Event>, key: string, i: nat, j: nat): nat
    requires c.refill > 0 && |states| == |events| + 1 && i <= j <= |events|
  {
    if i == j then 0
    else
      var e := events[j - 1];
      TakenBy(c, states, events, key, i, j - 1) +
      (if e.Attempt? && e.key == key && Takes(c, EntryFor(c, states[j - 1].peers, key, e.now), e.now) then 1 else 0)
  }

  /** What one step makes of a bucket: its own attempt, or nothing. */
  lemma BucketAfterStep(c: Config, l: Limiter, e: Event, l': Limiter, key: string)
    requires ValidConfig(c) && LimiterOK(c, l) && LimiterStep(c, l, e, l') && key in l'.peers
    ensures if e.Attempt? && e.key == key then l'.peers[key] == AfterAttempt(c, EntryFor(c, l.peers, key, e.now), e.now)
            else key in l.peers && l'.peers[key] == l.peers[key]
  {
    if e.Attempt? {
      var q := AfterAttempt(c, EntryFor(c, l.peers, e.key, e.now), e.now);
      var left :| MakesRoom(c, l.peers, e.key, left) && l'.peers == left[e.key := q];
      RoomLeft(c, l.peers, e.key, left, q);
    }
  }

  // ---- Who is evicted ----

  /** No clock reading is earlier than one before it. */
  predicate ClockNeverGoesBack(events: seq<Event>) {
    forall i, j :: 0 <= i < j < |events| && events[i].Attempt? && events[j].Attempt? ==> events[i].now <= events[j].now
  }

  /** Event n is key's latest attempt before state i. */
  predicate LatestAttempt(events: seq<Event>, key: string, i: nat, n: nat)
    requires i <= |events|
  {
    && n < i && events[n].Attempt? && events[n].key == key
    && forall m :: n < m < i ==> !(events[m].Attempt? && events[m].key == key)
  }

  /** In every run a peer's lastSeen is the clock reading of its latest attempt, refused ones included. */
  lemma {:induction false} SeenAtLatestAttempt(c: Config, states: seq<Limiter>, events: seq<Event>, i: nat, key: string)
      returns (n: nat)
    requires ValidConfig(c) && Trace(c, states, events) && i <= |events| && key in states[i].peers
    ensures LatestAttempt(events, key, i, n) && states[i].peers[key].lastSeen == events[n].now
  {
    var e := events[i - 1];
    EveryStateIsOK(c, states, events, i - 1);
    BucketAfterStep(c, states[i - 1], e, states[i], key);
    if e.Attempt? && e.key == key {
      n := i - 1;
    } else {
      n := SeenAtLatestAttempt(c, states, events, i - 1, key);
    }
  }

  /** A peer goes only when a new one meets a full table, and then exactly one does. */
  lemma EvictsOnlyWhenFull(c: Config, l: Limiter, e: Event, l': Limiter)
    requires ValidConfig(c) && LimiterStep(c, l, e, l')
    ensures (exists gone :: gone in l.peers && gone !in l'.peers) <==>
            e.Attempt? && e.key !in l.peers && |l.peers| >= c.maxPeers
    ensures forall gone :: gone in l.peers && gone !in l'.peers ==> l'.peers.Keys == l.peers.Keys - {gone} + {e.key}
  {
    if e.Attempt? {
      var q := AfterAttempt(c, EntryFor(c, l.peers, e.key, e.now), e.now);
      var left :| MakesRoom(c, l.peers, e.key, left) && l'.peers == left[e.key := q];
      if e.key !in l.peers && |l.peers| >= c.maxPeers {
        var victim :| LeastRecentlySeen(l.peers, victim) && left == l.peers - {victim};
        assert victim in l.peers && victim !in l'.peers;
      }
    }
  }

  /** In every run the peer that goes is the one that has been away longest: its latest attempt was read off
      the clock no later than the latest attempt of any peer that stays, and with a clock that does not go
      back it came before it or in the same nanosecond. */
  lemma IdlePeerGoes(c: Config, states: seq<Limiter>, events: seq<Event>, i: nat, gone: string, stays: string, n: nat,
                     m: nat)
    requires ValidConfig(c) && Trace(c, states, events) && i < |events|
    requires gone in states[i].peers && gone !in states[i + 1].peers && stays in states[i].peers
    requires LatestAttempt(events, gone, i, n) && LatestAttempt(events, stays, i, m)
    ensures events[n].now <= events[m].now
    ensures ClockNeverGoesBack(events) ==> n <= m || events[n].now == events[m].now
  {
    var n' := SeenAtLatestAttempt(c, states, events, i, gone);
    var m' := SeenAtLatestAttempt(c, states, events, i, stays);
    assert n' == n && m' == m;
    var l, e, l' := states[i], events[i], states[i + 1];
    var q := AfterAttempt(c, EntryFor(c, l.peers, e.key, e.now), e.now);
    var left :| MakesRoom(c, l.peers, e.key, left) && l'.peers == left[e.key := q];
    var victim :| LeastRecentlySeen(l.peers, victim) && left == l.peers - {victim};
    assert victim == gone;
  }

  lemma SplitAdvance(a: int, b: int, d: int, r: real)
    requires r > 0.0
    ensures (b - a) as real / r + (d - b) as real / r == (d - a) as real / r
  {
  }

  /** The bound for a bucket after taken tokens, its clock having started at start. */
  predicate Bounded(c: Config, p: Peer, start: int, taken: nat)
    requires c.refill > 0
  {
    taken as real + p.tokens <= c.burst as real + (p.updated - start) as real / c.refill as real
  }

  lemma FirstAttemptPays(c: Config, now: int)
    requires ValidConfig(c)
    ensures Bounded(c, AfterAttempt(c, Fresh(c, now), now), now, if Takes(c, Fresh(c, now), now) then 1 else 0)
  {
    AttemptPays(c, Fresh(c, now), now);
  }

  lemma NextAttemptPays(c: Config, p: Peer, now: int, start: int, taken: nat)
    requires ValidConfig(c) && InRange(c, p) && Bounded(c, p, start, taken)
    ensures Bounded(c, AfterAttempt(c, p, now), start, taken + if Takes(c, p, now) then 1 else 0)
  {
    AttemptPays(c, p, now);
    SplitAdvance(start, p.updated, AfterAttempt(c, p, now).updated, c.refill as real);
  }

  /** The token bound over whole runs. From the attempt that creates a peer's bucket for as long as
      the bucket lives, tokens taken plus tokens left never exceed the burst plus one token per refill
      interval by which the bucket's clock advanced, even if the clock runs backwards in between. */
  lemma {:induction false} TokenBound(c: Config, states: seq<Limiter>, events: seq<Event>, key: string, i: nat, j: nat)
    requires ValidConfig(c) && Trace(c, states, events) && i < j <= |events|
    requires events[i].Attempt? && events[i].key == key && key !in states[i].peers
    requires forall n :: i < n <= j ==> key in states[n].peers
    ensures Bounded(c, states[j].peers[key], events[i].now, TakenBy(c, states, events, key, i, j))
  {
    EveryStateIsOK(c, states, events, j - 1);
    var l, e, l' := states[j - 1], events[j - 1], states[j];
    if j == i + 1 {
      BucketAfterStep(c, l, e, l', key);
      FirstAttemptPays(c, e.now);
      assert TakenBy(c, states, events, key, i, i) == 0;
    } else {
      TokenBound(c, states, events, key, i, j - 1);
      BucketAfterStep(c, l, e, l', key);
      if e.Attempt? && e.key == key {
        NextAttemptPays(c, l.peers[key], e.now, events[i].now, TakenBy(c, states, events, key, i, j - 1));
      }
    }
  }

  // ---- The retry hint over whole runs ----

  /** The bucket holds a whole, non-negative number of nanoseconds of refill. */
  ghost predicate WholeBucket(c: Config, p: Peer) {
    exists credit :: 0 <= credit && Represents(c, Credits(credit, p.updated), p)
  }

  lemma FreshIsWhole(c: Config, now: int)
    requires ValidConfig(c)
    ensures WholeBucket(c, Fresh(c, now))
  {
    FreshRepresents(c, now);
    FullHoldsAToken(c);
    assert Represents(c, Credits(Full(c), Fresh(c, now).updated), Fresh(c, now));
  }

  lemma AttemptKeepsWhole(c: Config, p: Peer, now: int)
    requires ValidConfig(c) && WholeBucket(c, p)
    ensures WholeBucket(c, AfterAttempt(c, p, now))
  {
    var credit :| 0 <= credit && Represents(c, Credits(credit, p.updated), p);
    var k := CreditsAfterAttempt(Full(c), c.refill, Credits(credit, p.updated), now);
    CreditsRefine(c, Credits(credit, p.updated), p, now);
    FullHoldsAToken(c);
    assert k.updated == AfterAttempt(c, p, now).updated;
    assert Represents(c, Credits(k.credit, k.updated), AfterAttempt(c, p, now));
  }

  /** In every run every bucket is whole. */
  lemma {:induction false} EveryBucketIsWhole(c: Config, states: seq<Limiter>, events: seq<Event>, i: nat, key: string)
    requires ValidConfig(c) && Trace(c, states, events) && i <= |events| && key in states[i].peers
    ensures WholeBucket(c, states[i].peers[key])
  {
    if i > 0 {
      var l, e := states[i - 1], events[i - 1];
      EveryStateIsOK(c, states, events, i - 1);
      BucketAfterStep(c, l, e, states[i], key);
      if key in l.peers { EveryBucketIsWhole(c, states, events, i - 1, key); }
      if e.Attempt? && e.key == key {
        FreshIsWhole(c, e.now);
        AttemptKeepsWhole(c, EntryFor(c, l.peers, key, e.now), e.now);
      }
    }
  }

  lemma {:induction false} UpdatedIsPast(c: Config, states: seq<Limiter>, events: seq<Event>, i: nat, key: string,
                                         j: nat)
    requires ValidConfig(c) && Trace(c, states, events) && ClockNeverGoesBack(events) && i <= j < |events|
    requires key in states[i].peers && events[j].Attempt?
    ensures states[i].peers[key].updated <= events[j].now
  {
    if i > 0 {
      EveryStateIsOK(c, states, events, i - 1);
      BucketAfterStep(c, states[i - 1], events[i - 1], states[i], key);
      if key in states[i - 1].peers { UpdatedIsPast(c, states, events, i - 1, key, j); }
    }
  }

  /** Nothing happens to key between i and j: no attempt of its own and no eviction. */
  predicate LeftAlone(states: seq<Limiter>, events: seq<Event>, key: string, i: nat, j: nat)
    requires |states| == |events| + 1
  {
    && (forall n :: i < n < j && n < |events| ==> !(events[n].Attempt? && events[n].key == key))
    && (forall n :: i < n <= j && n <= |events| ==> key in states[n].peers)
  }

  lemma {:induction false} BucketWaits(c: Config, states: seq<Limiter>, events: seq<Event>, key: string, i: nat, j: nat)
    requires ValidConfig(c) && Trace(c, states, events) && i < j <= |events|
    requires LeftAlone(states, events, key, i, j)
    ensures states[j].peers[key] == states[i + 1].peers[key]
    decreases j
  {
    if j > i + 1 {
      EveryStateIsOK(c, states, events, j - 1);
      BucketAfterStep(c, states[j - 1], events[j - 1], states[j], key);
      BucketWaits(c, states, events, key, i, j - 1);
    }
  }

  /** The bucket a peer brings to an attempt in a run. */
  function BucketAt(c: Config, states: seq<Limiter>, events: seq<Event>, i: nat): Peer
    requires i < |events| && |states| == |events| + 1 && events[i].Attempt?
  {
    EntryFor(c, states[i].peers, events[i].key, events[i].now)
  }

  lemma BucketAtIsWhole(c: Config, states: seq<Limiter>, events: seq<Event>, i: nat)
    requires ValidConfig(c) && Trace(c, states, events) && i < |events| && events[i].Attempt?
    ensures WholeBucket(c, BucketAt(c, states, events, i))
    ensures ClockNeverGoesBack(events) ==> BucketAt(c, states, events, i).updated <= events[i].now
  {
    var key := events[i].key;
    FreshIsWhole(c, events[i].now);
    if key in states[i].peers {
      EveryBucketIsWhole(c, states, events, i, key);
      if ClockNeverGoesBack(events) { UpdatedIsPast(c, states, events, i, key, i); }
    }
  }

  lemma MissingIsFloor(c: Config, k: Credits, p: Peer, now: int)
    requires ValidConfig(c) && Represents(c, k, p)
    ensures ((1.0 - Refilled(c, p, now).tokens) * c.refill as real).Floor == Missing(Full(c), c.refill, k, now)
  {
    RefillRefines(c, k, p, now);
    ScaledToken(Refilled(c, p, now).tokens, c.refill, CreditsRefilled(Full(c), k, now).credit);
  }

  /** The hint as a refused whole bucket meets it at a later attempt. */
  predicate HintIsExact(c: Config, q: Peer, waited: int, takes: bool) {
    && (takes <==> waited >= ((1.0 - q.tokens) * c.refill as real).Floor)
    && (waited >= RetryAfter(c, q) ==> takes)
    && (RetryAfter(c, q) > SECOND ==> (takes <==> waited >= RetryAfter(c, q)))
  }

  lemma HintForWholeBucket(c: Config, p: Peer, now: int, later: int)
    requires ValidConfig(c) && WholeBucket(c, p) && p.updated <= now <= later && !Takes(c, p, now)
    ensures HintIsExact(c, Refilled(c, p, now), later - now, Takes(c, AfterAttempt(c, p, now), later))
  {
    var credit :| 0 <= credit && Represents(c, Credits(credit, p.updated), p);
    RetryHintIsExact(c, Credits(credit, p.updated), p, now, later);
    MissingIsFloor(c, Credits(credit, p.updated), p, now);
  }

  /** The bucket the next attempt finds is the one the last attempt left. */
  lemma NextBucket(c: Config, states: seq<Limiter>, events: seq<Event>, key: string, i: nat, j: nat)
    requires ValidConfig(c) && Trace(c, states, events) && i < j < |events|
    requires events[i].Attempt? && events[i].key == key && events[j].Attempt? && events[j].key == key
    requires LeftAlone(states, events, key, i, j)
    ensures BucketAt(c, states, events, j) == AfterAttempt(c, BucketAt(c, states, events, i), events[i].now)
  {
    EveryStateIsOK(c, states, events, i);
    BucketAfterStep(c, states[i], events[i], states[i + 1], key);
    BucketWaits(c, states, events, key, i, j);
  }

  /** The hint over runs. A peer is refused at event i for lack of tokens; its next attempt is event j, it
      is not evicted in between, and the clock does not run backwards. Then the attempt finds a token if
      and only if the missing time has passed, and certainly after the announced wait; an announced wait
      of more than the second it is at least is exact. */
  lemma RetryHintOverRuns(c: Config, states: seq<Limiter>, events: seq<Event>, key: string, i: nat, j: nat)
    requires ValidConfig(c) && Trace(c, states, events) && ClockNeverGoesBack(events) && i < j < |events|
    requires events[i].Attempt? && events[i].key == key && events[j].Attempt? && events[j].key == key
    requires LeftAlone(states, events, key, i, j)
    requires !Takes(c, BucketAt(c, states, events, i), events[i].now)
    ensures HintIsExact(c, Refilled(c, BucketAt(c, states, events, i), events[i].now), events[j].now - events[i].now,
                        Takes(c, BucketAt(c, states, events, j), events[j].now))
  {
    BucketAtIsWhole(c, states, events, i);
    NextBucket(c, states, events, key, i, j);
    HintForWholeBucket(c, BucketAt(c, states, events, i), events[i].now, events[j].now);
  }
}
