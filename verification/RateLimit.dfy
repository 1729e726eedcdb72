/**
 The sign-in rate limiter: per-address buckets set, counted and pruned in place on each request,
 and what that admits over whole runs (web/src/proxy.ts).
 */
module RateLimit {
  import opened ByteStrings

  const WINDOW_MS: nat := 900_000
  const LIMIT: nat := 10
  const PRUNE_ABOVE: nat := 10_000

  datatype Bucket = Bucket(count: nat, resetAt: int)

  type Buckets = map<Bytes, Bucket>

  datatype Request = Request(isPost: bool, ip: Bytes, now: int)

  datatype Response = Pass | TooMany(retryAfter: int)

  // ----- one request, as a function of the buckets

  function Expired(b: Bucket, now: int): bool {
    b.resetAt <= now
  }

  function Prune(bs: Buckets, now: int): Buckets {
    map k | k in bs && !Expired(bs[k], now) :: bs[k]
  }

  /** The buckets after a request, when eviction is left out. */
  function Keep(bs: Buckets, r: Request): Buckets {
    if !r.isPost then bs
    else if r.ip !in bs || Expired(bs[r.ip], r.now) then bs[r.ip := Bucket(1, r.now + WINDOW_MS)]
    else bs[r.ip := bs[r.ip].(count := bs[r.ip].count + 1)]
  }

  /** The buckets after a request. */
  function Next(bs: Buckets, r: Request): Buckets {
    var kept := Keep(bs, r);
    if r.isPost && (r.ip !in bs || Expired(bs[r.ip], r.now)) && |kept| > PRUNE_ABOVE then Prune(kept, r.now)
    else kept
  }

  function Answer(bs: Buckets, r: Request): Response {
    if !r.isPost || r.ip !in bs || Expired(bs[r.ip], r.now) || bs[r.ip].count + 1 <= LIMIT then Pass
    else TooMany((bs[r.ip].resetAt - r.now + 999) / 1000)
  }

  class Limiter {
    var buckets: Buckets

    constructor ()
      ensures buckets == map[]
    {
      buckets := map[];
    }

    /** `proxy` */
    method Proxy(r: Request) returns (response: Response)
      modifies this
      ensures buckets == Next(old(buckets), r)
      ensures response == Answer(old(buckets), r)
    {
      if !r.isPost {
        return Pass;
      }
      if r.ip !in buckets || buckets[r.ip].resetAt <= r.now {
        buckets := buckets[r.ip := Bucket(1, r.now + WINDOW_MS)];
        if |buckets| > PRUNE_ABOVE {
          ghost var full := buckets;
          var left := buckets.Keys;
          while left != {}
            invariant left <= buckets.Keys <= full.Keys
            invariant forall k :: k in buckets ==> buckets[k] == full[k]
            invariant forall k :: k in full && k !in left ==> (k in buckets <==> !Expired(full[k], r.now))
            decreases left
          {
            var k :| k in left;
            if buckets[k].resetAt <= r.now {
              buckets := buckets - {k};
            }
            left := left - {k};
          }
          assert buckets == Prune(full, r.now);
        }
        return Pass;
      }
      var bucket := buckets[r.ip];
      bucket := bucket.(count := bucket.count + 1);
      buckets := buckets[r.ip := bucket];
      if bucket.count > LIMIT {
        return TooMany((bucket.resetAt - r.now + 999) / 1000);
      }
      return Pass;
    }
  }

  /**
   What a refused caller is told to wait is the least number of whole seconds that helps: after them
   the next request passes, and a second sooner it does not.
   */
  lemma RetryAfterIsLeast(bs: Buckets, r: Request)
    requires Answer(bs, r).TooMany?
    ensures
      var wait := Answer(bs, r).retryAfter;
      && wait >= 1
      && Answer(Next(bs, r), r.(now := r.now + 1000 * wait)) == Pass
      && Answer(Next(bs, r), r.(now := r.now + 1000 * (wait - 1))).TooMany?
  {
  }

  /** Past ten thousand buckets, opening one leaves no expired bucket behind; short of that none goes. */
  lemma OpeningPrunes(bs: Buckets, r: Request)
    requires r.isPost && (r.ip !in bs || Expired(bs[r.ip], r.now))
    ensures |Keep(bs, r)| > 10_000 ==> forall k :: k in Next(bs, r) ==> Next(bs, r)[k].resetAt > r.now
    ensures |Keep(bs, r)| > 10_000 ==>
      forall k :: k in Keep(bs, r) && Keep(bs, r)[k].resetAt > r.now ==> k in Next(bs, r)
    ensures |Keep(bs, r)| <= 10_000 ==> Next(bs, r) == Keep(bs, r)
  {
  }

  // ----- runs

  predicate ClockForward(rs: seq<Request>) {
    forall i, j :: 0 <= i < j < |rs| ==> rs[i].now <= rs[j].now
  }

  function State(rs: seq<Request>): Buckets {
    if rs == [] then map[] else Next(State(rs[..|rs| - 1]), rs[|rs| - 1])
  }

  /** The same run on a map that never evicts. */
  function KeptState(rs: seq<Request>): Buckets {
    if rs == [] then map[] else Keep(KeptState(rs[..|rs| - 1]), rs[|rs| - 1])
  }

  /** The two maps hold the same unexpired buckets. */
  ghost predicate SameLive(a: Buckets, b: Buckets, now: int) {
    forall k ::
      && (k in a && !Expired(a[k], now) <==> k in b && !Expired(b[k], now))
      && (k in a && !Expired(a[k], now) ==> a[k] == b[k])
  }

  lemma SameLiveAnswers(a: Buckets, b: Buckets, r: Request)
    requires SameLive(a, b, r.now)
    ensures Answer(a, r) == Answer(b, r)
    ensures SameLive(Next(a, r), Keep(b, r), r.now)
  {
    var ka := Keep(a, r);
    assert SameLive(ka, Keep(b, r), r.now);
    assert SameLive(Prune(ka, r.now), ka, r.now);
  }

  lemma SameLiveLater(a: Buckets, b: Buckets, now: int, later: int)
    requires SameLive(a, b, now) && now <= later
    ensures SameLive(a, b, later)
  {
  }

  lemma {:induction false} StatesAgree(rs: seq<Request>, now: int)
    requires ClockForward(rs) && (rs != [] ==> rs[|rs| - 1].now <= now)
    ensures SameLive(State(rs), KeptState(rs), now)
  {
    if rs != [] {
      var n := |rs| - 1;
      StatesAgree(rs[..n], rs[n].now);
      SameLiveAnswers(State(rs[..n]), KeptState(rs[..n]), rs[n]);
      SameLiveLater(State(rs), KeptState(rs), rs[n].now, now);
    }
  }

  /** Eviction is unobservable: on a clock that never runs back, no answer depends on it. */
  lemma EvictionUnobservable(rs: seq<Request>, r: Request)
    requires ClockForward(rs + [r])
    ensures Answer(State(rs), r) == Answer(KeptState(rs), r)
  {
    assert rs == (rs + [r])[..|rs|];
    assert forall i :: 0 <= i < |rs| ==> rs[i] == (rs + [r])[i] && rs[i].now <= (rs + [r])[|rs|].now;
    StatesAgree(rs, r.now);
    SameLiveAnswers(State(rs), KeptState(rs), r);
  }

  // ----- how many are admitted

  /** When `ip`'s sign-in requests were let through, in order. */
  function AdmittedTimes(rs: seq<Request>, ip: Bytes): seq<int> {
    if rs == [] then []
    else
      var before, r := rs[..|rs| - 1], rs[|rs| - 1];
      AdmittedTimes(before, ip)
      + if r.isPost && r.ip == ip && Answer(State(before), r) == Pass then [r.now] else []
  }

  /** How many of `ts` lie in `[lo, hi)`. */
  function Within(ts: seq<int>, lo: int, hi: int): nat {
    if ts == [] then 0
    else Within(ts[..|ts| - 1], lo, hi) + if lo <= ts[|ts| - 1] < hi then 1 else 0
  }

  lemma WithinSnoc(ts: seq<int>, x: int, lo: int, hi: int)
    ensures Within(ts + [x], lo, hi) == Within(ts, lo, hi) + if lo <= x < hi then 1 else 0
  {
    assert (ts + [x])[..|ts|] == ts;
  }

  lemma {:induction false} WithinSplits(ts: seq<int>, lo: int, mid: int, hi: int)
    requires lo <= mid <= hi
    ensures Within(ts, lo, hi) == Within(ts, lo, mid) + Within(ts, mid, hi)
  {
    if ts != [] {
      WithinSplits(ts[..|ts| - 1], lo, mid, hi);
    }
  }

  /** What a bucket says about the admissions behind it. */
  ghost predicate Accounts(ts: seq<int>, b: Bucket) {
    var start := b.resetAt - WINDOW_MS;
    && b.count >= 1
    && (forall hi :: hi >= b.resetAt ==> Within(ts, start, hi) == if b.count < LIMIT then b.count else LIMIT)
    && Within(ts, start, start + 1) >= 1
    && (forall hi :: hi >= b.resetAt ==> Within(ts, b.resetAt, hi) == 0)
    && (forall t :: start - WINDOW_MS < t <= start ==> Within(ts, t, start) <= LIMIT - 1)
  }

  /** How many lie in the window opening at `t`. */
  function InWindow(ts: seq<int>, t: int): nat {
    Within(ts, t, t + WINDOW_MS)
  }

  ghost predicate WindowsBounded(ts: seq<int>) {
    forall t :: InWindow(ts, t) <= 2 * LIMIT - 1
  }

  ghost predicate Accounted(ts: seq<int>, bs: Buckets, ip: Bytes) {
    if ip in bs then Accounts(ts, bs[ip]) else ts == []
  }

  /** A fresh bucket: of the previous one only what follows its first request can share a window. */
  lemma FreshBucket(ts: seq<int>, b: Bucket, now: int)
    requires Accounts(ts, b) && Expired(b, now) && WindowsBounded(ts)
    ensures Accounts(ts + [now], Bucket(1, now + WINDOW_MS))
    ensures WindowsBounded(ts + [now])
  {
    var start, more := b.resetAt - WINDOW_MS, ts + [now];
    forall t | now - WINDOW_MS < t <= now ensures Within(ts, t, now) <= LIMIT - 1 {
      if t <= b.resetAt {
        WithinSplits(ts, start, start + 1, t);
        WithinSplits(ts, start, t, now);
      } else {
        WithinSplits(ts, b.resetAt, t, now);
      }
    }
    forall hi | hi >= now ensures Within(ts, now, hi) == 0 {
      WithinSplits(ts, b.resetAt, now, hi);
    }
    forall t ensures InWindow(more, t) <= 2 * LIMIT - 1 {
      assert InWindow(ts, t) <= 2 * LIMIT - 1;
      WithinSnoc(ts, now, t, t + WINDOW_MS);
      if t <= now < t + WINDOW_MS {
        WithinSplits(ts, t, now, t + WINDOW_MS);
      }
    }
    forall t | now - WINDOW_MS < t <= now ensures Within(more, t, now) <= LIMIT - 1 {
      WithinSnoc(ts, now, t, now);
    }
    var end := now + WINDOW_MS;
    forall hi | hi >= end ensures Within(more, now, hi) == 1 {
      WithinSnoc(ts, now, now, hi);
    }
    forall hi | hi >= end ensures Within(more, end, hi) == 0 {
      WithinSnoc(ts, now, end, hi);
      WithinSplits(ts, now, end, hi);
    }
    WithinSnoc(ts, now, now, now + 1);
    assert end - WINDOW_MS == now;
  }

  lemma FirstBucket(now: int)
    ensures Accounts([now], Bucket(1, now + WINDOW_MS)) && WindowsBounded([now])
  {
    var ts: seq<int> := [];
    assert ts + [now] == [now];
    forall lo, hi ensures Within([now], lo, hi) == if lo <= now < hi then 1 else 0 {
      WithinSnoc(ts, now, lo, hi);
    }
  }

  /** One more admission inside a bucket's own window. */
  lemma BucketCounts(ts: seq<int>, b: Bucket, now: int)
    requires Accounts(ts, b) && b.resetAt - WINDOW_MS <= now < b.resetAt && b.count < LIMIT
    ensures Accounts(ts + [now], b.(count := b.count + 1))
  {
    hide Within;
    forall lo, hi ensures Within(ts + [now], lo, hi) == Within(ts, lo, hi) + if lo <= now < hi then 1 else 0 {
      WithinSnoc(ts, now, lo, hi);
    }
  }

  /** And any window over it still holds no more than two buckets' worth less one. */
  lemma BucketWindow(ts: seq<int>, b: Bucket, now: int, t: int)
    requires Accounts(ts, b) && b.resetAt - WINDOW_MS <= now < b.resetAt && b.count < LIMIT && WindowsBounded(ts)
    ensures InWindow(ts + [now], t) <= 2 * LIMIT - 1
  {
    hide Within;
    var start := b.resetAt - WINDOW_MS;
    assert InWindow(ts, t) <= 2 * LIMIT - 1;
    WithinSnoc(ts, now, t, t + WINDOW_MS);
    if t <= now < t + WINDOW_MS {
      if t <= start {
        WithinSplits(ts, t, start, t + WINDOW_MS);
        WithinSplits(ts, start, t + WINDOW_MS, b.resetAt);
      } else {
        WithinSplits(ts, start, t, t + WINDOW_MS);
        assert Within(ts, start, t + WINDOW_MS) == b.count;
      }
    }
  }

  /** A live bucket below its limit lets one more through; one at its limit lets none. */
  lemma SameBucket(ts: seq<int>, b: Bucket, now: int)
    requires Accounts(ts, b) && b.resetAt - WINDOW_MS <= now < b.resetAt && WindowsBounded(ts)
    ensures b.count < LIMIT ==>
      Accounts(ts + [now], b.(count := b.count + 1)) && WindowsBounded(ts + [now])
    ensures b.count >= LIMIT ==> Accounts(ts, b.(count := b.count + 1))
  {
    if b.count < LIMIT {
      hide Within, Accounts, InWindow;
      BucketCounts(ts, b, now);
      forall t ensures InWindow(ts + [now], t) <= 2 * LIMIT - 1 {
        BucketWindow(ts, b, now, t);
      }
    }
  }

  /** The clock has reached every bucket's first request. */
  ghost predicate Started(bs: Buckets, now: int) {
    forall k :: k in bs ==> bs[k].resetAt - WINDOW_MS <= now
  }

  /** One more request keeps the account. */
  lemma StepAccounted(ts: seq<int>, bs: Buckets, r: Request, ip: Bytes)
    requires Accounted(ts, bs, ip) && WindowsBounded(ts) && Started(bs, r.now)
    ensures
      var more := ts + if r.isPost && r.ip == ip && Answer(bs, r) == Pass then [r.now] else [];
      Accounted(more, Keep(bs, r), ip) && WindowsBounded(more)
  {
    hide Within, Accounts, WindowsBounded;
    assert ts + [] == ts;
    if r.isPost && r.ip == ip {
      if ip !in bs {
        FirstBucket(r.now);
        assert ts + [r.now] == [r.now];
      } else if Expired(bs[ip], r.now) {
        FreshBucket(ts, bs[ip], r.now);
      } else {
        SameBucket(ts, bs[ip], r.now);
      }
    }
  }

  lemma {:induction false} RunAccounted(rs: seq<Request>, ip: Bytes)
    requires ClockForward(rs)
    ensures Accounted(AdmittedTimes(rs, ip), KeptState(rs), ip)
    ensures WindowsBounded(AdmittedTimes(rs, ip))
    ensures rs != [] ==> Started(KeptState(rs), rs[|rs| - 1].now)
    ensures rs == [] ==> KeptState(rs) == map[]
  {
    hide Within, Accounted, WindowsBounded, Answer, State;
    if rs == [] {
      NoTimes(ip);
    } else {
      var n := |rs| - 1;
      var before, r := rs[..n], rs[n];
      RunAccounted(before, ip);
      assert before + [r] == rs;
      EvictionUnobservable(before, r);
      assert n > 0 ==> before[n - 1].now <= r.now;
      assert Started(KeptState(before), r.now);
      StepAccounted(AdmittedTimes(before, ip), KeptState(before), r, ip);
    }
  }

  lemma NoTimes(ip: Bytes)
    ensures WindowsBounded([]) && Accounted([], map[], ip)
  {
  }

  /** Over any run and any fifteen minutes, an address gets at most nineteen requests through. */
  lemma WindowBound(rs: seq<Request>, ip: Bytes, t: int)
    requires ClockForward(rs)
    ensures Within(AdmittedTimes(rs, ip), t, t + 15 * 60 * 1000) <= 19
  {
    RunAccounted(rs, ip);
    assert InWindow(AdmittedTimes(rs, ip), t) <= 2 * LIMIT - 1;
  }

  /** And a bucket never lets more than `LIMIT` through between its first request and its reset. */
  lemma BucketBound(rs: seq<Request>, ip: Bytes)
    requires ClockForward(rs) && ip in KeptState(rs)
    ensures
      var b := KeptState(rs)[ip];
      Within(AdmittedTimes(rs, ip), b.resetAt - 15 * 60 * 1000, b.resetAt) <= 10
  {
    hide Within, KeptState, AdmittedTimes;
    RunAccounted(rs, ip);
  }

  // ----- the bound is reached

  function Burst(ip: Bytes, now: int, k: nat): seq<Request> {
    if k == 0 then [] else Burst(ip, now, k - 1) + [Request(true, ip, now)]
  }

  lemma OneMore(rs: seq<Request>, ip: Bytes, now: int)
    ensures State(rs + [Request(true, ip, now)]) == Next(State(rs), Request(true, ip, now))
    ensures AdmittedTimes(rs + [Request(true, ip, now)], ip) ==
      AdmittedTimes(rs, ip) + if Answer(State(rs), Request(true, ip, now)) == Pass then [now] else []
  {
    assert (rs + [Request(true, ip, now)])[..|rs|] == rs;
  }

  lemma {:induction false} BurstAdmitted(rs: seq<Request>, ip: Bytes, now: int, k: nat, b: Bucket, lo: int, hi: int)
    requires State(rs) == map[ip := b] && now < b.resetAt && b.count + k <= LIMIT
    ensures State(rs + Burst(ip, now, k)) == map[ip := b.(count := b.count + k)]
    ensures Within(AdmittedTimes(rs + Burst(ip, now, k), ip), lo, hi)
         == Within(AdmittedTimes(rs, ip), lo, hi) + if lo <= now < hi then k else 0
  {
    hide State, AdmittedTimes, Within;
    if k == 0 {
      assert rs + Burst(ip, now, k) == rs;
    } else {
      BurstAdmitted(rs, ip, now, k - 1, b, lo, hi);
      var before := rs + Burst(ip, now, k - 1);
      assert rs + Burst(ip, now, k) == before + [Request(true, ip, now)];
      OneMore(before, ip, now);
      WithinSnoc(AdmittedTimes(before, ip), now, lo, hi);
    }
  }

  lemma {:induction false} BurstClock(ip: Bytes, now: int, k: nat)
    ensures |Burst(ip, now, k)| == k && forall i :: 0 <= i < k ==> Burst(ip, now, k)[i].now == now
  {
    if k > 0 {
      BurstClock(ip, now, k - 1);
    }
  }

  /** One request opens a bucket, nine more close it, and ten follow its reset: 19 in one window. */
  lemma BoundReached(ip: Bytes)
    ensures exists rs, t :: ClockForward(rs) && InWindow(AdmittedTimes(rs, ip), t) == 19
  {
    hide State, AdmittedTimes, Within, Burst;
    var w: int := WINDOW_MS;
    var t := w - 1;
    var r1 := [] + [Request(true, ip, 0)];
    EmptyRun(ip);
    OneMore([], ip, 0);
    WithinSnoc([], 0, t, t + w);
    var r2 := r1 + Burst(ip, t, 9);
    BurstAdmitted(r1, ip, t, 9, Bucket(1, w), t, t + w);
    var r3 := r2 + [Request(true, ip, w)];
    OneMore(r2, ip, w);
    WithinSnoc(AdmittedTimes(r2, ip), w, t, t + w);
    var r4 := r3 + Burst(ip, w, 9);
    BurstAdmitted(r3, ip, w, 9, Bucket(1, w + w), t, t + w);
    BurstClock(ip, t, 9);
    BurstClock(ip, w, 9);
    assert ClockForward(r4);
    assert InWindow(AdmittedTimes(r4, ip), t) == 19;
  }

  lemma EmptyRun(ip: Bytes)
    ensures State([]) == map[] && AdmittedTimes([], ip) == [] && forall lo, hi :: Within([], lo, hi) == 0
  {
  }
}
