/**
 The per-identity fixed-window rate limiter with lazy eviction (internal/api/ratelimit.go).

 Times are integers in nanoseconds. The clock readings of a history are nondecreasing in the order
 in which the calls take the lock.
 */
module RateLimit {
  import opened Basics

  datatype Counter = Counter(reset: int, n: nat)

  type Hits = map<string, Counter>

  datatype Request = Request(key: string, now: int)

  /** The map size above which an admission sweeps out expired counters. */
  const CAP: nat := 4096

  const MINUTE: int := 60_000_000_000

  function Identity(key: string): (k: string)
    ensures k != ""
  {
    if key == "" then "anon" else key
  }

  /** The counters that have not expired at `now`. */
  function Evict(hits: Hits, now: int): Hits {
    map k | k in hits && now < hits[k].reset :: hits[k]
  }

  /** The counter a request of `key` is charged to. */
  function Current(window: int, hits: Hits, key: string, now: int): Counter {
    if key !in hits || now >= hits[key].reset then Counter(now + window, 0) else hits[key]
  }

  /** One decision of the limiter that never evicts. */
  function Decide(limit: int, window: int, hits: Hits, req: Request): (bool, Hits) {
    var key := Identity(req.key);
    var c := Current(window, hits, key, req.now);
    if limit <= 0 then (true, hits)
    else if c.n >= limit then (false, hits)
    else (true, hits[key := c.(n := c.n + 1)])
  }

  /** One decision of the limiter as written: an admission may sweep. */
  function DecideAndSweep(limit: int, window: int, hits: Hits, req: Request): (bool, Hits) {
    var (ok, next) := Decide(limit, window, hits, req);
    if limit > 0 && ok && |next| > CAP then (ok, Evict(next, req.now)) else (ok, next)
  }

  class FixedWindow {
    const limit: int
    const window: int
    var hits: Hits

    constructor (limit: int, window: int)
      ensures this.limit == limit && hits == map[]
      ensures this.window == if window <= 0 then 60_000_000_000 else window
      ensures this.window > 0
    {
      this.limit := limit;
      this.window := if window <= 0 then MINUTE else window;
      hits := map[];
    }

    method Allow(key: string, now: int) returns (ok: bool)
      modifies this
      ensures (ok, hits) == DecideAndSweep(limit, window, old(hits), Request(key, now))
    {
      if limit <= 0 {
        return true;
      }
      var k := Identity(key);
      if k !in hits || now >= hits[k].reset {
        hits := hits[k := Counter(now + window, 0)];
      }
      if hits[k].n >= limit {
        assert hits == old(hits);
        return false;
      }
      hits := hits[k := hits[k].(n := hits[k].n + 1)];
      assert hits == Decide(limit, window, old(hits), Request(key, now)).1;
      if |hits| > CAP {
        EvictLocked(now);
      }
      return true;
    }

    method EvictLocked(now: int)
      modifies this
      ensures hits == Evict(old(hits), now)
    {
      var todo := hits.Keys;
      while todo != {}
        invariant todo <= hits.Keys <= old(hits).Keys
        invariant forall k :: k in hits ==> hits[k] == old(hits)[k]
        invariant forall k :: k in old(hits) && k !in todo ==> (k in hits <==> now < old(hits)[k].reset)
        decreases |todo|
      {
        var k :| k in todo;
        todo := todo - {k};
        if now >= hits[k].reset {
          hits := hits - {k};
        }
      }
    }
  }

  // ---- histories ----

  ghost predicate Ordered(reqs: seq<Request>) {
    forall i, j :: 0 <= i < j < |reqs| ==> reqs[i].now <= reqs[j].now
  }

  function Last(reqs: seq<Request>): Request
    requires reqs != []
  {
    reqs[|reqs| - 1]
  }

  function Init(reqs: seq<Request>): seq<Request>
    requires reqs != []
  {
    reqs[..|reqs| - 1]
  }

  /** The map after a history, with or without the sweep. */
  function After(limit: int, window: int, sweep: bool, reqs: seq<Request>): Hits {
    if reqs == [] then map[]
    else
      var h := After(limit, window, sweep, Init(reqs));
      if sweep then DecideAndSweep(limit, window, h, Last(reqs)).1 else Decide(limit, window, h, Last(reqs)).1
  }

  /** The answer to the last request of a history. */
  function LastAnswer(limit: int, window: int, sweep: bool, reqs: seq<Request>): bool
    requires reqs != []
  {
    var h := After(limit, window, sweep, Init(reqs));
    if sweep then DecideAndSweep(limit, window, h, Last(reqs)).0 else Decide(limit, window, h, Last(reqs)).0
  }

  function Answers(limit: int, window: int, sweep: bool, reqs: seq<Request>): (a: seq<bool>)
    ensures |a| == |reqs|
  {
    if reqs == [] then []
    else Answers(limit, window, sweep, Init(reqs)) + [LastAnswer(limit, window, sweep, reqs)]
  }

  /** The admissions of `key` at times in [lo, hi). */
  function Admitted(limit: int, window: int, sweep: bool, reqs: seq<Request>, key: string, lo: int, hi: int): nat {
    if reqs == [] then 0
    else
      var r := Last(reqs);
      Admitted(limit, window, sweep, Init(reqs), key, lo, hi)
      + if Identity(r.key) == key && lo <= r.now < hi && LastAnswer(limit, window, sweep, reqs) then 1 else 0
  }

  // ---- eviction is invisible ----

  /** The sweeping map lacks only counters that have expired by `now`. */
  ghost predicate Agree(swept: Hits, full: Hits, now: int) {
    && (forall k :: k in swept ==> k in full && swept[k] == full[k])
    && (forall k :: k in full && k !in swept ==> full[k].reset <= now)
  }

  lemma AgreeStep(limit: int, window: int, swept: Hits, full: Hits, before: int, req: Request)
    requires Agree(swept, full, before) && before <= req.now
    ensures DecideAndSweep(limit, window, swept, req).0 == Decide(limit, window, full, req).0
    ensures Agree(DecideAndSweep(limit, window, swept, req).1, Decide(limit, window, full, req).1, req.now)
  {
    var key := Identity(req.key);
    assert key in full && key !in swept ==> full[key].reset <= req.now;
  }

  lemma {:induction false} SweepAgrees(limit: int, window: int, reqs: seq<Request>)
    requires Ordered(reqs)
    ensures reqs != [] ==>
              Agree(After(limit, window, true, reqs), After(limit, window, false, reqs), Last(reqs).now)
    ensures Answers(limit, window, true, reqs) == Answers(limit, window, false, reqs)
  {
    if reqs != [] {
      var init := Init(reqs);
      SweepAgrees(limit, window, init);
      var before := if init == [] then Last(reqs).now else Last(init).now;
      assert before <= Last(reqs).now;
      AgreeStep(limit, window, After(limit, window, true, init), After(limit, window, false, init), before, Last(reqs));
    }
  }

  /**
   On every history with a nondecreasing clock the evicting limiter answers every request as the
   limiter that never evicts.
   */
  lemma EvictionIsInvisible(limit: int, window: int, reqs: seq<Request>, i: nat)
    requires Ordered(reqs) && i < |reqs|
    ensures Answers(limit, window, true, reqs)[i] == Answers(limit, window, false, reqs)[i]
  {
    SweepAgrees(limit, window, reqs);
  }

  lemma {:induction false} AdmittedSwept(limit: int, window: int, reqs: seq<Request>, key: string, lo: int, hi: int)
    requires Ordered(reqs)
    ensures Admitted(limit, window, true, reqs, key, lo, hi) == Admitted(limit, window, false, reqs, key, lo, hi)
  {
    if reqs != [] {
      AdmittedSwept(limit, window, Init(reqs), key, lo, hi);
      SweepAgrees(limit, window, reqs);
      assert Answers(limit, window, true, reqs)[|reqs| - 1] == Answers(limit, window, false, reqs)[|reqs| - 1];
    }
  }

  /** A call that adds a key leaves a small map, or one without expired entries. */
  lemma AddingKeepsMapSmall(limit: int, window: int, hits: Hits, req: Request)
    requires limit > 0
    requires Identity(req.key) !in hits
    ensures var next := DecideAndSweep(limit, window, hits, req).1;
            |next| <= 4096 || forall k :: k in next ==> req.now < next[k].reset
  {
  }

  /** A limit that is not positive admits everything. */
  lemma {:induction false} NoLimitAdmitsAll(limit: int, window: int, sweep: bool, reqs: seq<Request>)
    requires limit <= 0
    ensures forall i :: 0 <= i < |reqs| ==> Answers(limit, window, sweep, reqs)[i]
  {
    if reqs != [] { NoLimitAdmitsAll(limit, window, sweep, Init(reqs)); }
  }

  // ---- callers do not share windows ----

  /** The same key, where a caller without a key is "anon". */
  predicate SameCaller(a: string, b: string) {
    a == b || (a == "" && b == "anon") || (a == "anon" && b == "")
  }

  lemma IdentityIff(a: string, b: string)
    ensures Identity(a) == Identity(b) <==> SameCaller(a, b)
  {
  }

  /** What one caller asked for. */
  function Only(reqs: seq<Request>, key: string): (own: seq<Request>)
    ensures forall r :: r in own ==> r in reqs && SameCaller(r.key, key)
  {
    if reqs == [] then []
    else if SameCaller(Last(reqs).key, key) then Only(Init(reqs), key) + [Last(reqs)]
    else Only(Init(reqs), key)
  }

  lemma {:induction false} OnlyIsOrdered(reqs: seq<Request>, key: string)
    requires Ordered(reqs)
    ensures Ordered(Only(reqs, key))
  {
    if reqs != [] {
      OnlyIsOrdered(Init(reqs), key);
      var own := Only(Init(reqs), key);
      if SameCaller(Last(reqs).key, key) && own != [] {
        assert Last(own) in Init(reqs);
        OrderedThen(own, Last(reqs));
      }
    }
  }

  /** Both maps hold the same for this identity. */
  predicate SameFor(who: string, h: Hits, g: Hits) {
    (who in h <==> who in g) && (who in h ==> h[who] == g[who])
  }

  /** A decision about an identity looks at its own counter, and one about another leaves it alone. */
  lemma DecideLocally(limit: int, window: int, h: Hits, g: Hits, who: string, r: Request)
    requires SameFor(who, h, g)
    ensures Identity(r.key) == who ==>
              && Decide(limit, window, h, r).0 == Decide(limit, window, g, r).0
              && SameFor(who, Decide(limit, window, h, r).1, Decide(limit, window, g, r).1)
    ensures Identity(r.key) != who ==> SameFor(who, Decide(limit, window, h, r).1, g)
  {
  }

  /** The caller's counter is the same with the others' requests as without them. */
  lemma {:induction false} OthersLeaveNoTrace(limit: int, window: int, reqs: seq<Request>, key: string)
    ensures SameFor(Identity(key), After(limit, window, false, reqs), After(limit, window, false, Only(reqs, key)))
  {
    if reqs != [] {
      var init, r := Init(reqs), Last(reqs);
      OthersLeaveNoTrace(limit, window, init, key);
      IdentityIff(r.key, key);
      var h, g := After(limit, window, false, init), After(limit, window, false, Only(init, key));
      DecideLocally(limit, window, h, g, Identity(key), r);
      if SameCaller(r.key, key) {
        var own := Only(init, key) + [r];
        assert Init(own) == Only(init, key) && Last(own) == r;
      }
    }
  }

  /**
   Callers do not share windows: the answer to a request depends on the requests with the same key
   alone, and every other request could be left out. A caller without a key shares with "anon" only.
   */
  lemma CallersAreIndependent(limit: int, window: int, reqs: seq<Request>)
    requires Ordered(reqs) && reqs != []
    ensures Only(reqs, Last(reqs).key) != []
    ensures LastAnswer(limit, window, true, reqs) == LastAnswer(limit, window, true, Only(reqs, Last(reqs).key))
  {
    OnlyKeepsLast(reqs);
    OnlyIsOrdered(reqs, Last(reqs).key);
    SameAnswerAlone(limit, window, reqs, Only(reqs, Last(reqs).key));
    SweptLastAnswer(limit, window, reqs);
    SweptLastAnswer(limit, window, Only(reqs, Last(reqs).key));
  }

  lemma OnlyKeepsLast(reqs: seq<Request>)
    requires reqs != []
    ensures var key, own := Last(reqs).key, Only(reqs, Last(reqs).key);
            own != [] && Init(own) == Only(Init(reqs), key) && Last(own) == Last(reqs)
  {
    var own := Only(Init(reqs), Last(reqs).key) + [Last(reqs)];
    assert own[..|own| - 1] == Only(Init(reqs), Last(reqs).key);
  }

  /** For the limiter that never evicts. */
  lemma SameAnswerAlone(limit: int, window: int, reqs: seq<Request>, own: seq<Request>)
    requires reqs != [] && own != [] && Last(own) == Last(reqs) && Init(own) == Only(Init(reqs), Last(reqs).key)
    ensures LastAnswer(limit, window, false, reqs) == LastAnswer(limit, window, false, own)
  {
    var key, init := Last(reqs).key, Init(reqs);
    OthersLeaveNoTrace(limit, window, init, key);
    DecideLocally(limit, window, After(limit, window, false, init), After(limit, window, false, Only(init, key)),
                  Identity(key), Last(reqs));
  }

  lemma SweptLastAnswer(limit: int, window: int, reqs: seq<Request>)
    requires Ordered(reqs) && reqs != []
    ensures LastAnswer(limit, window, true, reqs) == LastAnswer(limit, window, false, reqs)
  {
    SweepAgrees(limit, window, reqs);
    assert Answers(limit, window, true, reqs)[|reqs| - 1] == Answers(limit, window, false, reqs)[|reqs| - 1];
  }

  // ---- who a caller is ----

  /** What identifies a request: its token, its client certificate, the way it authenticated, its address. */
  datatype Caller = Caller(token: string, cn: string, scheme: string, host: string)

  /** rateKey; `digest` is the hex of the token's hash. */
  function RateKey(c: Caller, digest: string -> string): string {
    if c.token != "" then "tok:" + digest(c.token)
    else if c.cn != "" then "cn:" + c.cn
    else if c.scheme != "" && c.scheme != "none" then "auth:" + c.scheme
    else "ip:" + c.host
  }

  /** Which of the four a caller is known by. */
  function KnownBy(c: Caller): nat {
    if c.token != "" then 0
    else if c.cn != "" then 1
    else if c.scheme == "" || c.scheme == "none" then 3
    else 2
  }

  function KindPrefix(kind: nat): (p: string)
    ensures |p| >= 3 && p[|p| - 1] == ':'
    ensures kind != 2 ==> p[0] != 'a'
    ensures kind == 2 ==> p[1] == 'u'
  {
    if kind == 0 then "tok:" else if kind == 1 then "cn:" else if kind == 2 then "auth:" else "ip:"
  }

  /** What it is known by. */
  function KnownAs(c: Caller, digest: string -> string): string {
    if KnownBy(c) == 0 then digest(c.token)
    else if KnownBy(c) == 1 then c.cn
    else if KnownBy(c) == 2 then c.scheme
    else c.host
  }

  /** A key names the kind and what the caller is known by, and is never that of a caller without a key. */
  lemma RateKeyIs(c: Caller, digest: string -> string)
    ensures RateKey(c, digest) == KindPrefix(KnownBy(c)) + KnownAs(c, digest)
    ensures RateKey(c, digest) != "" && RateKey(c, digest) != "anon"
  {
    var p, k := KindPrefix(KnownBy(c)), RateKey(c, digest);
    assert k[0] == p[0] && k[1] == p[1];
  }

  lemma SameKeyIff(i: nat, x: string, j: nat, y: string)
    requires i < 4 && j < 4
    ensures KindPrefix(i) + x == KindPrefix(j) + y <==> i == j && x == y
  {
    var p, q := KindPrefix(i), KindPrefix(j);
    assert (p + x)[0] == p[0] && (q + y)[0] == q[0];
    assert (p + x)[|p|..] == x && (q + y)[|q|..] == y;
  }

  /** Two requests share a window exactly when they are known by the same kind of thing and it is the same. */
  lemma SameWindowIff(a: Caller, b: Caller, digest: string -> string)
    ensures SameCaller(RateKey(a, digest), RateKey(b, digest)) <==>
              KnownBy(a) == KnownBy(b) && KnownAs(a, digest) == KnownAs(b, digest)
  {
    RateKeyIs(a, digest);
    RateKeyIs(b, digest);
    SameKeyIff(KnownBy(a), KnownAs(a, digest), KnownBy(b), KnownAs(b, digest));
  }

  // ---- what a counter means ----

  /** The start of the latest window of `key`, from the request times alone. */
  function Opened(window: int, reqs: seq<Request>, key: string): Option<int> {
    if reqs == [] then None
    else
      var r := Last(reqs);
      var before := Opened(window, Init(reqs), key);
      if Identity(r.key) == key && (before.None? || r.now >= before.value + window) then Some(r.now) else before
  }

  /** The admissions of `key` from `lo` on. */
  function Since(limit: int, window: int, reqs: seq<Request>, key: string, lo: int): nat {
    if reqs == [] then 0
    else
      var r := Last(reqs);
      Since(limit, window, Init(reqs), key, lo)
      + if Identity(r.key) == key && lo <= r.now && LastAnswer(limit, window, false, reqs) then 1 else 0
  }

  /** A counter holds the start of its window and the admissions since. */
  lemma {:induction false} CounterMeaning(limit: int, window: int, reqs: seq<Request>, key: string)
    requires limit > 0 && window > 0 && Ordered(reqs)
    ensures var h := After(limit, window, false, reqs);
            var s := Opened(window, reqs, key);
            && (key in h <==> s.Some?)
            && (s.Some? ==> && h[key].reset == s.value + window
                            && 1 <= h[key].n <= limit
                            && s.value <= Last(reqs).now
                            && h[key].n == Since(limit, window, reqs, key, s.value))
  {
    if reqs != [] {
      CounterMeaning(limit, window, Init(reqs), key);
      var r := Last(reqs);
      assert Init(reqs) != [] ==> Last(Init(reqs)).now <= r.now;
      var s := Opened(window, Init(reqs), key);
      if Identity(r.key) == key && (s.None? || r.now >= s.value + window) {
        NoneSince(limit, window, Init(reqs), key, r.now);
      }
    }
  }

  /** Nothing is admitted at or after a point past the current window, nor before any window opens. */
  lemma {:induction false} NoneSince(limit: int, window: int, reqs: seq<Request>, key: string, lo: int)
    requires limit > 0 && window > 0 && Ordered(reqs)
    requires Opened(window, reqs, key).Some? ==> lo >= Opened(window, reqs, key).value + window
    ensures Since(limit, window, reqs, key, lo) == 0
  {
    if reqs != [] {
      NoneSince(limit, window, Init(reqs), key, lo);
    }
  }

  /**
   The limiter, without counters or maps: a request passes exactly when fewer than `limit`
   requests of its identity were admitted since its window opened.
   */
  lemma AdmittedIffRoomInWindow(limit: int, window: int, reqs: seq<Request>)
    requires limit > 0 && window > 0 && Ordered(reqs) && reqs != []
    ensures var key := Identity(Last(reqs).key);
            var s := Opened(window, reqs, key);
            && s.Some? && s.value <= Last(reqs).now < s.value + window
            && (LastAnswer(limit, window, true, reqs) <==> Since(limit, window, Init(reqs), key, s.value) < limit)
  {
    var key := Identity(Last(reqs).key);
    CounterMeaning(limit, window, Init(reqs), key);
    SweepAgrees(limit, window, reqs);
    assert Answers(limit, window, true, reqs)[|reqs| - 1] == Answers(limit, window, false, reqs)[|reqs| - 1];
    var before := Opened(window, Init(reqs), key);
    if before.None? || Last(reqs).now >= before.value + window {
      NoneSince(limit, window, Init(reqs), key, Last(reqs).now);
    }
  }

  lemma {:induction false} SinceIsAdmitted(limit: int, window: int, reqs: seq<Request>, key: string, lo: int, hi: int)
    requires Ordered(reqs)
    requires reqs != [] ==> Last(reqs).now < hi
    ensures Since(limit, window, reqs, key, lo) == Admitted(limit, window, false, reqs, key, lo, hi)
  {
    if reqs != [] {
      SinceIsAdmitted(limit, window, Init(reqs), key, lo, hi);
    }
  }

  /**
   A denial is never spurious: exactly `limit` requests of the identity were admitted in its
   current window, all less than one window ago.
   */
  lemma DenialMeansFullWindow(limit: int, window: int, reqs: seq<Request>) returns (start: int)
    requires limit > 0 && window > 0 && Ordered(reqs) && reqs != []
    requires !LastAnswer(limit, window, true, reqs)
    ensures var now := Last(reqs).now;
            && now - window < start <= now
            && Admitted(limit, window, true, Init(reqs), Identity(Last(reqs).key), start, now + 1) == limit
  {
    var key, now := Identity(Last(reqs).key), Last(reqs).now;
    AdmittedIffRoomInWindow(limit, window, reqs);
    CounterMeaning(limit, window, Init(reqs), key);
    start := Opened(window, reqs, key).value;
    var before := Opened(window, Init(reqs), key);
    if before.None? || now >= before.value + window { NoneSince(limit, window, Init(reqs), key, now); }
    SinceIsAdmitted(limit, window, Init(reqs), key, start, now + 1);
    AdmittedSwept(limit, window, Init(reqs), key, start, now + 1);
  }

  // ---- the sliding bound ----

  /** Past its first instant a window holds at most limit - 1 admissions: its opener came first. */
  lemma {:induction false} SinceAfterStart(limit: int, window: int, reqs: seq<Request>, key: string, lo: int)
    requires limit > 0 && window > 0 && Ordered(reqs)
    requires Opened(window, reqs, key).Some? && lo > Opened(window, reqs, key).value
    ensures Since(limit, window, reqs, key, lo) < Since(limit, window, reqs, key, Opened(window, reqs, key).value)
  {
    CounterMeaning(limit, window, reqs, key);
    CounterMeaning(limit, window, Init(reqs), key);
    var s := Opened(window, Init(reqs), key);
    var r := Last(reqs);
    if Identity(r.key) == key && (s.None? || r.now >= s.value + window) {
      NoneSince(limit, window, Init(reqs), key, lo);
    } else {
      SinceAfterStart(limit, window, Init(reqs), key, lo);
    }
  }

  /** From `lo`, less than m windows before the current one: at most m * limit - 1 earlier admissions. */
  lemma {:induction false} SinceSpread(limit: int, window: int, reqs: seq<Request>, key: string, lo: int, m: nat)
    requires limit > 0 && window > 0 && Ordered(reqs)
    requires Opened(window, reqs, key).Some?
    requires m >= 1 && 0 <= Opened(window, reqs, key).value - lo < m * window
    ensures Since(limit, window, reqs, key, lo)
            <= m * limit - 1 + Since(limit, window, reqs, key, Opened(window, reqs, key).value)
    decreases |reqs|
  {
    CounterMeaning(limit, window, reqs, key);
    var init, r := Init(reqs), Last(reqs);
    CounterMeaning(limit, window, init, key);
    var s := Opened(window, init, key);
    assert m * limit >= limit by { assert (m - 1) * limit >= 0; }
    if Identity(r.key) == key && (s.None? || r.now >= s.value + window) {
      if s.None? {
        NoneSince(limit, window, init, key, lo);
      } else if lo > s.value {
        SinceAfterStart(limit, window, init, key, lo);
      } else {
        assert s.value - lo < (m - 1) * window by { assert (m - 1) * window == m * window - window; }
        assert m != 1;
        SinceSpread(limit, window, init, key, lo, m - 1);
        assert (m - 1) * limit == m * limit - limit;
      }
    } else {
      SinceSpread(limit, window, init, key, lo, m);
    }
  }

  /**
   Over any half-open interval of k windows, wherever it starts, one identity is admitted at most
   (k + 1) * limit - 1 times.
   */
  lemma {:induction false} SlidingBound(limit: int, window: int, reqs: seq<Request>, key: string, from: int, k: nat)
    requires limit > 0 && window > 0 && Ordered(reqs) && k >= 1
    ensures Admitted(limit, window, true, reqs, key, from, from + k * window) <= (k + 1) * limit - 1
    decreases |reqs|
  {
    var hi := from + k * window;
    assert (k + 1) * limit == k * limit + limit;
    assert k * limit >= limit by { assert (k - 1) * limit >= 0; }
    if reqs != [] {
      if Last(reqs).now >= hi {
        SlidingBound(limit, window, Init(reqs), key, from, k);
      } else {
        AdmittedSwept(limit, window, reqs, key, from, hi);
        SinceIsAdmitted(limit, window, reqs, key, from, hi);
        CounterMeaning(limit, window, reqs, key);
        var s := Opened(window, reqs, key);
        if s.None? {
          NoneSince(limit, window, reqs, key, from);
        } else if s.value < from {
          SinceAfterStart(limit, window, reqs, key, from);
        } else {
          SinceSpread(limit, window, reqs, key, from, k);
        }
      }
    }
  }

  // ---- the bound is reached ----

  /** The history has brought the limiter to one counter of `who`, with `count` admissions in [lo, hi). */
  ghost predicate Stands(limit: int, window: int, reqs: seq<Request>, who: string, c: Counter, lo: int, hi: int,
                         count: int)
  {
    && Ordered(reqs)
    && After(limit, window, true, reqs) == map[Identity(who) := c]
    && Admitted(limit, window, true, reqs, Identity(who), lo, hi) == count
  }

  lemma OrderedThen(reqs: seq<Request>, r: Request)
    requires Ordered(reqs) && (reqs != [] ==> Last(reqs).now <= r.now)
    ensures Ordered(reqs + [r]) && Init(reqs + [r]) == reqs && Last(reqs + [r]) == r
  {
    assert reqs != [] ==> forall i :: 0 <= i < |reqs| ==> reqs[i].now <= Last(reqs).now;
  }

  /** One more request, admitted into the current window or opening a new one. */
  lemma OneMore(limit: int, window: int, reqs: seq<Request>, who: string, c: Counter, lo: int, hi: int, count: int,
                t: int)
    requires limit > 0 && Stands(limit, window, reqs, who, c, lo, hi, count)
    requires reqs != [] ==> Last(reqs).now <= t
    requires t >= c.reset || c.n < limit
    ensures var next := if t >= c.reset then Counter(t + window, 1) else c.(n := c.n + 1);
            Stands(limit, window, reqs + [Request(who, t)], who, next, lo, hi, count + if lo <= t < hi then 1 else 0)
  {
    OrderedThen(reqs, Request(who, t));
    AdmitsNext(limit, window, After(limit, window, true, reqs), who, c, t);
  }

  lemma AdmitsNext(limit: int, window: int, h: Hits, who: string, c: Counter, t: int)
    requires limit > 0 && h == map[Identity(who) := c] && (t >= c.reset || c.n < limit)
    ensures var next := if t >= c.reset then Counter(t + window, 1) else c.(n := c.n + 1);
            DecideAndSweep(limit, window, h, Request(who, t)) == (true, map[Identity(who) := next])
  {
    var next := Decide(limit, window, h, Request(who, t)).1;
    assert next == map[Identity(who) := next[Identity(who)]];
  }

  /** `m` more requests at time `t` inside the current window. */
  lemma {:induction false} Burst(limit: int, window: int, reqs: seq<Request>, who: string, c: Counter, lo: int, hi: int,
                                 count: int, t: int, m: nat)
      returns (out: seq<Request>)
    requires limit > 0 && Stands(limit, window, reqs, who, c, lo, hi, count)
    requires reqs != [] && Last(reqs).now <= t < c.reset && c.n + m <= limit
    ensures Stands(limit, window, out, who, c.(n := c.n + m), lo, hi, count + if lo <= t < hi then m else 0)
    ensures out != [] && Last(out).now <= t
    decreases m
  {
    out := reqs;
    if m > 0 {
      var most := Burst(limit, window, reqs, who, c, lo, hi, count, t, m - 1);
      OneMore(limit, window, most, who, c.(n := c.n + (m - 1)), lo, hi, count + if lo <= t < hi then m - 1 else 0, t);
      out := most + [Request(who, t)];
      assert Last(out).now == t;
    }
  }

  /** One full window, opening when the current one ends. */
  lemma FullWindow(limit: int, window: int, reqs: seq<Request>, who: string, c: Counter, lo: int, hi: int, count: int)
      returns (out: seq<Request>)
    requires limit > 0 && window > 0 && Stands(limit, window, reqs, who, c, lo, hi, count)
    requires reqs != [] && Last(reqs).now <= c.reset && lo <= c.reset < hi
    ensures Stands(limit, window, out, who, Counter(c.reset + window, limit), lo, hi, count + limit)
    ensures out != [] && Last(out).now <= c.reset
  {
    var t := c.reset;
    OneMore(limit, window, reqs, who, c, lo, hi, count, t);
    OrderedThen(reqs, Request(who, t));
    out := Burst(limit, window, reqs + [Request(who, t)], who, Counter(t + window, 1), lo, hi, count + 1, t, limit - 1);
  }

  /** m * x, one x at a time. */
  function Times(m: nat, x: nat): (r: nat)
    ensures m > 0 ==> r >= x
  {
    if m == 0 then 0 else Times(m - 1, x) + x
  }

  lemma {:induction false} TimesIsProduct(m: nat, x: nat)
    ensures Times(m, x) == m * x
  {
    if m > 0 {
      TimesIsProduct(m - 1, x);
      assert m * x == (m - 1) * x + x;
    }
  }

  /** `m` full windows, the first one opening when the current one ends; the interval ends within the last. */
  lemma {:induction false} FullWindows(limit: int, window: int, reqs: seq<Request>, who: string, c: Counter, lo: int,
                                       count: int, m: nat, hi: int)
      returns (out: seq<Request>, end: Counter)
    requires limit > 0 && window > 1 && Stands(limit, window, reqs, who, c, lo, hi, count)
    requires reqs != [] && Last(reqs).now <= c.reset && lo <= c.reset && hi == c.reset + Times(m, window) - 1
    ensures Stands(limit, window, out, who, end, lo, hi, count + Times(m, limit))
    decreases m
  {
    out, end := reqs, c;
    if m > 0 {
      var mid := FullWindow(limit, window, reqs, who, c, lo, hi, count);
      out, end := FullWindows(limit, window, mid, who, Counter(c.reset + window, limit), lo, count + limit, m - 1, hi);
    }
  }

  /** The first request opens a window. */
  lemma FirstRequest(limit: int, window: int, who: string, lo: int, hi: int)
    requires limit > 0 && lo > 0
    ensures Stands(limit, window, [Request(who, 0)], who, Counter(window, 1), lo, hi, 0)
  {
    var r := Request(who, 0);
    OrderedThen([], r);
    assert [] + [r] == [r];
    var next := Decide(limit, window, map[], r).1;
    assert next == map[Identity(who) := Counter(window, 1)];
  }

  /** A window opened at 0 and used up in its last instant, and `k` full windows after it. */
  lemma TightRun(limit: int, window: int, who: string, k: nat, hi: int) returns (reqs: seq<Request>, end: Counter)
    requires limit >= 1 && window >= 2 && k >= 1 && hi == window - 1 + Times(k, window)
    ensures Stands(limit, window, reqs, who, end, window - 1, hi, limit - 1 + Times(k, limit))
  {
    var from := window - 1;
    FirstRequest(limit, window, who, from, hi);
    reqs := Burst(limit, window, [Request(who, 0)], who, Counter(window, 1), from, hi, 0, from, limit - 1);
    reqs, end := FullWindows(limit, window, reqs, who, Counter(window, limit), from, limit - 1, k, hi);
  }

  /** The bound is reached, whatever the limit, the window and the number of windows. */
  lemma SlidingBoundIsTight(limit: int, window: int, who: string, k: nat) returns (reqs: seq<Request>, from: int)
    requires limit >= 1 && window >= 2 && k >= 1
    ensures Ordered(reqs)
    ensures Admitted(limit, window, true, reqs, Identity(who), from, from + k * window) == (k + 1) * limit - 1
  {
    from := window - 1;
    TimesIsProduct(k, window);
    TimesIsProduct(k + 1, limit);
    var end;
    reqs, end := TightRun(limit, window, who, k, from + k * window);
  }
}
