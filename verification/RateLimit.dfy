/**
 * The per-client request limiter: one Redis counter per client and minute.
 * Its comment calls it a sliding window; it is a fixed one-minute bucket.
 */
module RateLimit {
  import opened Prelude

  /** Times are nanoseconds since the Unix epoch. */
  const SECOND: nat := 1_000_000_000
  const MINUTE: nat := 60 * SECOND

  type Client = string

  datatype Key = Key(client: Client, minute: nat)

  datatype Counter = Counter(count: nat, expires: nat)

  type Store = map<Key, Counter>

  /** A request the panel sees at `now` and whose increment reaches Redis at `at`. */
  datatype Request = Request(client: Client, now: nat, at: nat)

  function KeyOf(r: Request): Key {
    Key(r.client, r.now / MINUTE)
  }

  function BucketEnd(k: Key): nat {
    (k.minute + 1) * MINUTE
  }

  /** Whole seconds left in the minute, counted from the second `now` falls into. */
  function WindowExpiry(now: nat): nat {
    (60 - now / SECOND % 60) * SECOND
  }

  /** INCR then EXPIRE: an expired counter starts over, and every call renews the expiry. */
  function Increment(s: Store, k: Key, ttl: nat, at: nat): (Store, nat) {
    var count := if k in s && at < s[k].expires then s[k].count + 1 else 1;
    (s[k := Counter(count, at + ttl)], count)
  }

  function Handle(s: Store, r: Request, limit: int): (Store, bool) {
    var (s', count) := Increment(s, KeyOf(r), WindowExpiry(r.now), r.at);
    (s', count <= limit)
  }

  /** Which requests are served, in the order Redis sees them. */
  function Served(s: Store, reqs: seq<Request>, limit: int): (f: seq<bool>)
    ensures |f| == |reqs|
    decreases |reqs|
  {
    if reqs == [] then []
    else
      var (s', ok) := Handle(s, reqs[0], limit);
      [ok] + Served(s', reqs[1..], limit)
  }

  /** Addresses the development mode never limits. */
  const LOCAL_WHITELIST: set<Client> := {"127.0.0.1", "::1"}

  /** What the panel learns from Redis; a failed pipeline may have been executed all the same. */
  datatype Reply = Answered | Failed(executed: bool)

  class Limiter {
    var store: Store

    constructor ()
      ensures store == map[]
    {
      store := map[];
    }

    method IncrementRateLimit(k: Key, ttl: nat, at: nat, reply: Reply) returns (count: Option<nat>)
      modifies this
      ensures reply.Answered? ==> count.Some? && (store, count.value) == Increment(old(store), k, ttl, at)
      ensures reply.Failed? ==>
                count.None? && store == if reply.executed then Increment(old(store), k, ttl, at).0 else old(store)
    {
      if reply.Failed? && !reply.executed {
        return None;
      }
      var n := 1;
      if k in store && at < store[k].expires {
        n := store[k].count + 1;
      }
      store := store[k := Counter(n, at + ttl)];
      count := if reply.Failed? then None else Some(n);
    }

    /** `remaining` is the header a limited client gets to see. */
    method RateLimit(r: Request, requestsPerMin: int, devMode: bool, reply: Reply)
      returns (served: bool, remaining: Option<nat>)
      modifies this
      ensures devMode && r.client in LOCAL_WHITELIST ==> served && remaining.None? && store == old(store)
      ensures !(devMode && r.client in LOCAL_WHITELIST) && reply.Answered? ==>
                && (store, served) == Handle(old(store), r, requestsPerMin)
                && remaining.Some? && KeyOf(r) in store
                && (var left := requestsPerMin - store[KeyOf(r)].count;
                    remaining.value == (if left > 0 then left else 0) && (served <==> left >= 0))
      ensures !(devMode && r.client in LOCAL_WHITELIST) && reply.Failed? ==>
                && served && remaining.None?
                && store == if reply.executed then Handle(old(store), r, requestsPerMin).0 else old(store)
    {
      if devMode && r.client in LOCAL_WHITELIST {
        return true, None;
      }
      var windowMinute := r.now / MINUTE;
      var count := IncrementRateLimit(Key(r.client, windowMinute), WindowExpiry(r.now), r.at, reply);
      if count.None? {
        return true, None;
      }
      remaining := Some(if requestsPerMin - count.value < 0 then 0 else requestsPerMin - count.value);
      served := count.value <= requestsPerMin;
    }
  }

  // ----- counting -----

  function Of(reqs: seq<Request>, k: Key): nat {
    if reqs == [] then 0 else (if KeyOf(reqs[0]) == k then 1 else 0) + Of(reqs[1..], k)
  }

  function ServedOf(reqs: seq<Request>, f: seq<bool>, k: Key): nat
    requires |f| == |reqs|
  {
    if reqs == [] then 0
    else (if f[0] && KeyOf(reqs[0]) == k then 1 else 0) + ServedOf(reqs[1..], f[1..], k)
  }

  /** Served requests of a client seen within one minute from `start` on. */
  function ServedWithin(reqs: seq<Request>, f: seq<bool>, client: Client, start: nat): nat
    requires |f| == |reqs|
  {
    if reqs == [] then 0
    else (if f[0] && reqs[0].client == client && start <= reqs[0].now < start + MINUTE then 1 else 0)
         + ServedWithin(reqs[1..], f[1..], client, start)
  }

  /** Of the requests of bucket `k`, exactly the first `limit` are served. */
  ghost predicate FirstServed(reqs: seq<Request>, f: seq<bool>, k: Key, limit: int)
    requires |f| == |reqs|
  {
    forall i :: 0 <= i < |reqs| && KeyOf(reqs[i]) == k ==> (f[i] <==> Of(reqs[..i + 1], k) <= limit)
  }

  // ----- when a bucket is limited -----

  /** When the counter expires unless a later increment renews it. */
  function Expiry(r: Request): nat {
    r.at + WindowExpiry(r.now)
  }

  /**
   * Every increment of `k` finds the counter its predecessor left: it reaches
   * Redis before the expiry that one set (`live`, where there was one).
   */
  ghost predicate Unbroken(reqs: seq<Request>, k: Key, live: Option<nat>) {
    reqs == [] ||
    if KeyOf(reqs[0]) == k then
      (live.Some? ==> reqs[0].at < live.value) && Unbroken(reqs[1..], k, Some(Expiry(reqs[0])))
    else Unbroken(reqs[1..], k, live)
  }

  ghost function LiveUntil(s: Store, k: Key): Option<nat> {
    if k in s then Some(s[k].expires) else None
  }

  /** Where bucket `k` stands: `seen` requests so far, `served` of them, the counter lost on the way if `broken`. */
  ghost predicate Standing(s: Store, k: Key, seen: nat, served: nat, broken: bool, limit: int) {
    if k !in s then seen == 0 && served == 0 && !broken
    else if !broken then s[k].count == seen >= 1 && served == Min(limit, seen)
    else
      && seen > s[k].count >= 1 && served > Min(limit, s[k].count)
      && (if seen <= limit then served == seen else served > limit)
  }

  lemma HandleStanding(s: Store, k: Key, seen: nat, served: nat, broken: bool, limit: int, r: Request)
    requires limit >= 1 && Standing(s, k, seen, served, broken, limit)
    ensures
      var (s', ok) := Handle(s, r, limit);
      if KeyOf(r) == k then
        && Standing(s', k, seen + 1, if ok then served + 1 else served,
                    broken || !(k in s ==> r.at < s[k].expires), limit)
        && LiveUntil(s', k) == Some(Expiry(r))
      else Standing(s', k, seen, served, broken, limit) && LiveUntil(s', k) == LiveUntil(s, k)
  {}

  lemma {:induction false} BoundFrom(s: Store, k: Key, seen: nat, served: nat, broken: bool, limit: int,
                                     reqs: seq<Request>)
    requires limit >= 1 && Standing(s, k, seen, served, broken, limit)
    ensures
      served + ServedOf(reqs, Served(s, reqs, limit), k) <= limit <==>
      seen + Of(reqs, k) <= limit || (!broken && Unbroken(reqs, k, LiveUntil(s, k)))
    decreases |reqs|
  {
    hide Handle;
    if reqs != [] {
      var r := reqs[0];
      var (s', ok) := Handle(s, r, limit);
      HandleStanding(s, k, seen, served, broken, limit, r);
      ServedUnfolds(s, reqs, limit, k);
      hide Standing;
      if KeyOf(r) == k {
        var broken' := broken || !(k in s ==> r.at < s[k].expires);
        BoundFrom(s', k, seen + 1, if ok then served + 1 else served, broken', limit, reqs[1..]);
      } else {
        BoundFrom(s', k, seen, served, broken, limit, reqs[1..]);
      }
    }
  }

  lemma ServedUnfolds(s: Store, reqs: seq<Request>, limit: int, k: Key)
    requires reqs != []
    ensures
      var (s', ok) := Handle(s, reqs[0], limit);
      && Served(s, reqs, limit) == [ok] + Served(s', reqs[1..], limit)
      && ServedOf(reqs, Served(s, reqs, limit), k)
          == (if ok && KeyOf(reqs[0]) == k then 1 else 0) + ServedOf(reqs[1..], Served(s', reqs[1..], limit), k)
  {
    var (s', ok) := Handle(s, reqs[0], limit);
    assert Served(s, reqs, limit)[1..] == Served(s', reqs[1..], limit);
  }

  /**
   * The limiter keeps a client's minute within its limit if and only if there are
   * no more requests than that, or no increment ever finds the counter expired.
   */
  lemma BucketBoundIff(reqs: seq<Request>, limit: int, k: Key)
    requires limit >= 1
    ensures ServedOf(reqs, Served(map[], reqs, limit), k) <= limit <==> Of(reqs, k) <= limit || Unbroken(reqs, k, None)
  {
    BoundFrom(map[], k, 0, 0, false, limit, reqs);
  }

  // ----- which requests are served -----

  lemma {:induction false} FirstServedFrom(s: Store, k: Key, seen: nat, limit: int, reqs: seq<Request>, i: nat)
    requires i < |reqs| && KeyOf(reqs[i]) == k
    requires if k in s then s[k].count <= seen else seen == 0
    requires seen + Of(reqs, k) <= limit || (Unbroken(reqs, k, LiveUntil(s, k)) && (k in s ==> s[k].count == seen))
    ensures Served(s, reqs, limit)[i] <==> seen + Of(reqs[..i + 1], k) <= limit
    decreases |reqs|
  {
    hide WindowExpiry, KeyOf;
    var r, rest := reqs[0], reqs[1..];
    var (s', ok) := Handle(s, r, limit);
    ServedUnfolds(s, reqs, limit, k);
    assert reqs[..i + 1][1..] == rest[..i];
    OfPrefix(reqs, i + 1, k);
    if i > 0 {
      FirstServedFrom(s', k, if KeyOf(r) == k then seen + 1 else seen, limit, rest, i - 1);
    }
  }

  lemma {:induction false} OfPrefix(reqs: seq<Request>, i: nat, k: Key)
    requires i <= |reqs|
    ensures Of(reqs[..i], k) <= Of(reqs, k)
  {
    if i > 0 {
      assert reqs[..i][1..] == reqs[1..][..i - 1];
      OfPrefix(reqs[1..], i - 1, k);
    }
  }

  /** Counting what `FirstServed` says, from `seen` requests on. */
  lemma {:induction false} CountFirst(reqs: seq<Request>, f: seq<bool>, k: Key, limit: nat, seen: nat)
    requires |f| == |reqs|
    requires forall i :: 0 <= i < |reqs| && KeyOf(reqs[i]) == k ==> (f[i] <==> seen + Of(reqs[..i + 1], k) <= limit)
    ensures ServedOf(reqs, f, k) == Min(limit, seen + Of(reqs, k)) - Min(limit, seen)
  {
    if reqs != [] {
      var one := if KeyOf(reqs[0]) == k then 1 else 0;
      assert reqs[..1][1..] == [];
      assert Of(reqs[..1], k) == one + Of(reqs[..1][1..], k) == one;
      assert KeyOf(reqs[0]) == k ==> (f[0] <==> seen + one <= limit);
      forall i | 0 <= i < |reqs[1..]| && KeyOf(reqs[1..][i]) == k
        ensures f[1..][i] <==> seen + one + Of(reqs[1..][..i + 1], k) <= limit
      {
        assert reqs[..i + 2][1..] == reqs[1..][..i + 1];
        assert reqs[i + 1] == reqs[1..][i];
      }
      CountFirst(reqs[1..], f[1..], k, limit, seen + one);
    }
  }

  /** Exactly the first `limit` requests of a minute are served, under that same condition and no other. */
  lemma FirstServedIff(reqs: seq<Request>, limit: int, k: Key)
    requires limit >= 1
    ensures FirstServed(reqs, Served(map[], reqs, limit), k, limit) <==> Of(reqs, k) <= limit || Unbroken(reqs, k, None)
  {
    var f := Served(map[], reqs, limit);
    if Of(reqs, k) <= limit || Unbroken(reqs, k, None) {
      forall i | 0 <= i < |reqs| && KeyOf(reqs[i]) == k ensures f[i] <==> Of(reqs[..i + 1], k) <= limit {
        FirstServedFrom(map[], k, 0, limit, reqs, i);
      }
    }
    if FirstServed(reqs, f, k, limit) {
      CountFirst(reqs, f, k, limit, 0);
      BucketBoundIff(reqs, limit, k);
    }
  }

  /** A limit that is not positive serves nobody. */
  lemma {:induction false} NoLimitServesNone(s: Store, reqs: seq<Request>, limit: int, i: nat)
    requires limit <= 0 && i < |reqs|
    ensures !Served(s, reqs, limit)[i]
    decreases |reqs|
  {
    if i > 0 {
      NoLimitServesNone(Handle(s, reqs[0], limit).0, reqs[1..], limit, i - 1);
    }
  }

  // ----- a counter outlives its bucket -----

  /**
   * The expiry counts from the second `now` falls into to the end of its minute. So a
   * counter set at `at` outlives the minute, by less than a second plus the delay.
   */
  lemma ExpiryCoversBucket(now: nat, at: nat)
    requires now <= at
    ensures now / SECOND * SECOND + WindowExpiry(now) == (now / MINUTE + 1) * MINUTE
    ensures (now / MINUTE + 1) * MINUTE <= at + WindowExpiry(now) < (now / MINUTE + 1) * MINUTE + SECOND + (at - now)
  {
    var s := now / SECOND;
    assert now / MINUTE == s / 60 by {
      DivTwice(now);
    }
    assert s == s / 60 * 60 + s % 60;
    assert now >= s * SECOND;
  }

  lemma DivTwice(n: nat)
    ensures n / MINUTE == n / SECOND / 60
  {}

  /** Each increment reaches Redis before the minute its request belongs to is over. */
  ghost predicate Timely(reqs: seq<Request>) {
    forall i :: 0 <= i < |reqs| ==> reqs[i].now <= reqs[i].at < BucketEnd(KeyOf(reqs[i]))
  }

  /** Timely increments always find the counter: it expires no earlier than its minute ends. */
  lemma {:induction false} TimelyIsUnbroken(reqs: seq<Request>, k: Key, live: Option<nat>)
    requires Timely(reqs) && (live.Some? ==> live.value >= BucketEnd(k))
    ensures Unbroken(reqs, k, live)
  {
    if reqs != [] {
      var r, rest := reqs[0], reqs[1..];
      assert forall i :: 0 <= i < |rest| ==> rest[i] == reqs[i + 1];
      ExpiryCoversBucket(r.now, r.at);
      TimelyIsUnbroken(rest, k, if KeyOf(r) == k then Some(Expiry(r)) else live);
    }
  }

  /**
   * Per client and minute the first `limit` requests are served and no others, as
   * long as the increments are timely.
   */
  lemma AtMostLimitPerBucket(reqs: seq<Request>, limit: nat, k: Key)
    requires Timely(reqs)
    ensures FirstServed(reqs, Served(map[], reqs, limit), k, limit)
    ensures ServedOf(reqs, Served(map[], reqs, limit), k) == Min(limit, Of(reqs, k))
  {
    var f := Served(map[], reqs, limit);
    if limit >= 1 {
      TimelyIsUnbroken(reqs, k, None);
      FirstServedIff(reqs, limit, k);
    } else {
      forall i | 0 <= i < |reqs| && KeyOf(reqs[i]) == k ensures !f[i] && Of(reqs[..i + 1], k) > 0 {
        NoLimitServesNone(map[], reqs, limit, i);
        OfSome(reqs[..i + 1], k);
      }
    }
    CountFirst(reqs, f, k, limit, 0);
  }

  lemma {:induction false} OfSome(reqs: seq<Request>, k: Key)
    requires reqs != [] && KeyOf(reqs[|reqs| - 1]) == k
    ensures Of(reqs, k) > 0
  {
    if |reqs| > 1 {
      OfSome(reqs[1..], k);
    }
  }

  lemma {:induction false} WindowSpansTwoBuckets(reqs: seq<Request>, f: seq<bool>, client: Client, start: nat)
    requires |f| == |reqs|
    ensures ServedWithin(reqs, f, client, start)
         <= ServedOf(reqs, f, Key(client, start / MINUTE)) + ServedOf(reqs, f, Key(client, start / MINUTE + 1))
  {
    if reqs != [] {
      WindowSpansTwoBuckets(reqs[1..], f[1..], client, start);
    }
  }

  /**
   * In any sixty seconds at most twice the limit is served, if in each of the two
   * minutes they touch the limit is not exceeded or no increment finds the counter
   * expired; in particular if the increments are timely.
   */
  lemma AtMostTwiceLimitPerWindow(reqs: seq<Request>, limit: int, client: Client, start: nat)
    requires limit >= 1
    ensures
      var k0, k1 := Key(client, start / MINUTE), Key(client, start / MINUTE + 1);
      && (Timely(reqs) ==> Unbroken(reqs, k0, None) && Unbroken(reqs, k1, None))
      && ((Of(reqs, k0) <= limit || Unbroken(reqs, k0, None)) && (Of(reqs, k1) <= limit || Unbroken(reqs, k1, None)) ==>
          ServedWithin(reqs, Served(map[], reqs, limit), client, start) <= 2 * limit)
  {
    var k0, k1 := Key(client, start / MINUTE), Key(client, start / MINUTE + 1);
    WindowSpansTwoBuckets(reqs, Served(map[], reqs, limit), client, start);
    BucketBoundIff(reqs, limit, k0);
    BucketBoundIff(reqs, limit, k1);
    if Timely(reqs) {
      TimelyIsUnbroken(reqs, k0, None);
      TimelyIsUnbroken(reqs, k1, None);
    }
  }

  // ----- and no better bound holds -----

  function Burst(client: Client, now: nat, n: nat): (reqs: seq<Request>)
    ensures |reqs| == n
  {
    seq(n, _ => Request(client, now, now))
  }

  lemma {:induction false} OfAppend(a: seq<Request>, b: seq<Request>, k: Key)
    ensures Of(a + b, k) == Of(a, k) + Of(b, k)
  {
    if a == [] {
      assert a + b == b;
    } else {
      assert (a + b)[1..] == a[1..] + b;
      OfAppend(a[1..], b, k);
    }
  }

  lemma {:induction false} OfBurst(client: Client, now: nat, n: nat, k: Key)
    ensures Of(Burst(client, now, n), k) == if k == Key(client, now / MINUTE) then n else 0
  {
    if n > 0 {
      assert Burst(client, now, n)[1..] == Burst(client, now, n - 1);
      OfBurst(client, now, n - 1, k);
    }
  }

  lemma {:induction false} AllInWindow(reqs: seq<Request>, f: seq<bool>, client: Client, start: nat, k0: Key, k1: Key)
    requires |f| == |reqs| && k0 != k1
    requires forall i :: 0 <= i < |reqs| ==> reqs[i].client == client && start <= reqs[i].now < start + MINUTE
    ensures ServedWithin(reqs, f, client, start) >= ServedOf(reqs, f, k0) + ServedOf(reqs, f, k1)
  {
    if reqs != [] {
      AllInWindow(reqs[1..], f[1..], client, start, k0, k1);
    }
  }

  /** For every limit there is a run that serves twice as many requests within two seconds across a minute boundary. */
  lemma TwiceLimitIsReached(client: Client, limit: nat)
    ensures
      var reqs := Burst(client, 59 * SECOND, limit) + Burst(client, 60 * SECOND, limit);
      && Timely(reqs) && (forall i, j :: 0 <= i < j < |reqs| ==> reqs[i].at <= reqs[j].at)
      && ServedWithin(reqs, Served(map[], reqs, limit), client, 59 * SECOND) == 2 * limit
  {
    hide Served, ServedOf, ServedWithin, Of;
    var a, b := Burst(client, 59 * SECOND, limit), Burst(client, 60 * SECOND, limit);
    var reqs := a + b;
    var f := Served(map[], reqs, limit);
    var k0, k1 := Key(client, 0), Key(client, 1);
    assert 59 * SECOND / MINUTE == 0 && 60 * SECOND / MINUTE == 1;
    OfAppend(a, b, k0);
    OfAppend(a, b, k1);
    OfBurst(client, 59 * SECOND, limit, k0);
    OfBurst(client, 60 * SECOND, limit, k0);
    OfBurst(client, 59 * SECOND, limit, k1);
    OfBurst(client, 60 * SECOND, limit, k1);
    AtMostLimitPerBucket(reqs, limit, k0);
    AtMostLimitPerBucket(reqs, limit, k1);
    AllInWindow(reqs, f, client, 59 * SECOND, k0, k1);
    WindowSpansTwoBuckets(reqs, f, client, 59 * SECOND);
  }

  /**
   * The condition fails, for instance, where an increment reaches Redis only after
   * its minute is over and the counter is gone: it starts over, and for every limit
   * one request too many is served.
   */
  lemma LateIncrementStartsOver(client: Client, limit: nat)
    requires limit >= 1
    ensures
      var reqs := Burst(client, 0, limit) + [Request(client, 59 * SECOND, 61 * SECOND)];
      var k := Key(client, 0);
      !Unbroken(reqs, k, None) && ServedOf(reqs, Served(map[], reqs, limit), k) > limit
  {
    var late := Request(client, 59 * SECOND, 61 * SECOND);
    var a, k := Burst(client, 0, limit), Key(client, 0);
    assert Expiry(Request(client, 0, 0)) == MINUTE;
    BurstThenLate(client, limit, late, None);
    OfAppend(a, [late], k);
    OfBurst(client, 0, limit, k);
    assert Of([late], k) == 1 + Of([], k);
    BucketBoundIff(a + [late], limit, k);
  }

  lemma {:induction false} BurstThenLate(client: Client, n: nat, late: Request, live: Option<nat>)
    requires KeyOf(late) == Key(client, 0) && late.at >= MINUTE
    requires if n == 0 then live == Some(MINUTE) else live.Some? ==> live.value > 0
    ensures !Unbroken(Burst(client, 0, n) + [late], Key(client, 0), live)
  {
    var reqs := Burst(client, 0, n) + [late];
    if n > 0 {
      assert reqs[1..] == Burst(client, 0, n - 1) + [late];
      assert KeyOf(reqs[0]) == Key(client, 0) && Expiry(reqs[0]) == MINUTE;
      BurstThenLate(client, n - 1, late, Some(MINUTE));
    }
  }
}
