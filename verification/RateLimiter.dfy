/** Token buckets per neighbour and category. Times are milliseconds of the limiter's clock; tokens are reals. */
module RateLimits {
  import opened Wrappers

  datatype Limit = Limit(ratePerSec: real, burst: real)

  datatype Bucket = Bucket(tokens: real, lastRefill: real)

  type Buckets = map<string, Bucket>

  /** The key of a bucket: category, NUL, peer. */
  function Key(peerId: string, category: string): string {
    category + ['\0'] + peerId
  }

  predicate NoNul(s: string) {
    forall i :: 0 <= i < |s| ==> s[i] != '\0'
  }

  function EndsWith(s: string, tail: string): bool {
    |s| >= |tail| && s[|s| - |tail|..] == tail
  }

  /** Names without NUL have buckets of their own. */
  lemma KeysDiffer(peer: string, category: string, peer': string, category': string)
    requires NoNul(category) && NoNul(category') && Key(peer, category) == Key(peer', category')
    ensures peer == peer' && category == category'
  {
    var k, k', n, n' := Key(peer, category), Key(peer', category'), |category|, |category'|;
    assert k[n] == '\0' && forall i :: 0 <= i < n ==> k[i] == category[i];
    assert k'[n'] == '\0' && forall i :: 0 <= i < n' ==> k'[i] == category'[i];
    assert n == n';
    assert category == k[..n] && category' == k'[..n'];
    assert peer == k[n + 1..] && peer' == k'[n' + 1..];
  }

  lemma NulInside(a: string, p: string, b: string, q: string)
    requires a + ['\0'] + p == b + ['\0'] + q
    ensures |p| < |q| ==> q[|q| - |p| - 1] == '\0'
  {
    var k := a + ['\0'] + p;
    assert k[|k| - |p| - 1] == '\0';
    assert k[|k| - |q|..] == q;
    assert |p| < |q| ==> k[|k| - |q|..][|q| - |p| - 1] == k[|k| - |p| - 1];
  }

  lemma SameTail(a: string, p: string, b: string, q: string)
    requires a + ['\0'] + p == b + ['\0'] + q && NoNul(p) && NoNul(q)
    ensures p == q
  {
    NulInside(a, p, b, q);
    NulInside(b, q, a, p);
    var k := a + ['\0'] + p;
    assert p == k[|k| - |p|..] && q == k[|k| - |q|..];
  }

  /** And what ends in NUL and the name of a peer is a bucket of that peer. */
  lemma EndsWithIffOwn(peer: string, category: string, other: string)
    requires NoNul(peer) && NoNul(other)
    ensures EndsWith(Key(other, category), ['\0'] + peer) <==> other == peer
  {
    hide NoNul;
    var k, tail := Key(other, category), ['\0'] + peer;
    if EndsWith(k, tail) {
      var front := k[..|k| - |tail|];
      assert k == front + ['\0'] + peer;
      SameTail(category, other, front, peer);
    } else {
      assert k[|category|..] == ['\0'] + other;
    }
  }

  function Max(a: real, b: real): real {
    if a < b then b else a
  }

  function Min(a: real, b: real): real {
    if a < b then a else b
  }

  /** The bucket when a message comes in, with what has accrued since. */
  function Refilled(limit: Limit, bucket: Option<Bucket>, now: real): Bucket {
    match bucket
    case None => Bucket(limit.burst, now)
    case Some(b) =>
      var elapsedSec := Max(0.0, now - b.lastRefill) / 1000.0;
      Bucket(Min(limit.burst, b.tokens + elapsedSec * limit.ratePerSec), now)
  }

  function Get(buckets: Buckets, key: string): Option<Bucket> {
    if key in buckets then Some(buckets[key]) else None
  }

  /** The buckets and the verdict after one message. */
  function Allow(limits: map<string, Limit>, buckets: Buckets, peerId: string, category: string, now: real): (Buckets, bool) {
    if category !in limits then (buckets, false) else
      var key := Key(peerId, category);
      var b := Refilled(limits[category], Get(buckets, key), now);
      if b.tokens < 1.0 then (buckets[key := b], false) else (buckets[key := Bucket(b.tokens - 1.0, now)], true)
  }

  /** No category is configured with a negative rate or burst, and category names have no NUL. */
  ghost predicate Sensible(limits: map<string, Limit>) {
    forall c :: c in limits ==> NoNul(c) && limits[c].ratePerSec >= 0.0 && limits[c].burst >= 0.0
  }

  datatype Call = Call(peerId: string, category: string, now: real)

  function After(limits: map<string, Limit>, buckets: Buckets, calls: seq<Call>): Buckets
    decreases |calls|
  {
    if calls == [] then buckets
    else After(limits, Allow(limits, buckets, calls[0].peerId, calls[0].category, calls[0].now).0, calls[1..])
  }

  /** How many messages of one peer in one category get through in a run. */
  function Passed(limits: map<string, Limit>, buckets: Buckets, calls: seq<Call>, peerId: string, category: string): nat
    decreases |calls|
  {
    if calls == [] then 0 else
      var step := Allow(limits, buckets, calls[0].peerId, calls[0].category, calls[0].now);
      Passed(limits, step.0, calls[1..], peerId, category)
      + if step.1 && calls[0].peerId == peerId && calls[0].category == category then 1 else 0
  }

  /** How far the clock moves forward over a run, seen from the calls of one peer in one category. */
  function Forward(calls: seq<Call>, peerId: string, category: string, since: Option<real>): (ms: real)
    ensures ms >= 0.0
    decreases |calls|
  {
    if calls == [] then 0.0
    else if calls[0].peerId != peerId || calls[0].category != category then Forward(calls[1..], peerId, category, since)
    else Forward(calls[1..], peerId, category, Some(calls[0].now))
         + if since.Some? then Max(0.0, calls[0].now - since.value) else 0.0
  }

  function LastRefill(buckets: Buckets, key: string): Option<real> {
    if key in buckets then Some(buckets[key].lastRefill) else None
  }

  ghost predicate TokensOk(limit: Limit, buckets: Buckets, key: string) {
    key in buckets ==> 0.0 <= buckets[key].tokens <= limit.burst
  }

  /** A message leaves other buckets alone, and its own between empty and full. */
  lemma OneMessage(limits: map<string, Limit>, buckets: Buckets, call: Call, peerId: string, category: string)
    requires Sensible(limits) && category in limits && NoNul(call.category)
    requires TokensOk(limits[category], buckets, Key(peerId, category))
    ensures var (after, passed) := Allow(limits, buckets, call.peerId, call.category, call.now);
      var key := Key(peerId, category);
      if call.peerId == peerId && call.category == category then
        var b := Refilled(limits[category], Get(buckets, key), call.now);
        key in after && after[key].lastRefill == call.now
        && after[key].tokens == b.tokens - (if passed then 1.0 else 0.0) && (passed <==> b.tokens >= 1.0)
        && TokensOk(limits[category], after, key)
      else (key in after <==> key in buckets) && (key in buckets ==> after[key] == buckets[key])
  {
    hide Key;
    if Key(call.peerId, call.category) == Key(peerId, category) {
      KeysDiffer(call.peerId, call.category, peerId, category);
    }
    Accrues(limits[category], Get(buckets, Key(peerId, category)), call.now);
  }

  /** What a rate yields in a time. */
  function Yield(rate: real, ms: real): real {
    rate * (ms / 1000.0)
  }

  lemma YieldAdds(rate: real, a: real, b: real)
    ensures Yield(rate, a + b) == Yield(rate, a) + Yield(rate, b)
  {
  }

  lemma YieldGrows(rate: real, a: real, b: real)
    requires rate >= 0.0 && a <= b
    ensures Yield(rate, a) <= Yield(rate, b) && (a >= 0.0 ==> Yield(rate, a) >= 0.0)
  {
    YieldAdds(rate, a, b - a);
    ProductOfNonNegatives((b - a) / 1000.0, rate);
    if a >= 0.0 { ProductOfNonNegatives(a / 1000.0, rate); }
  }

  lemma Accrues(limit: Limit, bucket: Option<Bucket>, now: real)
    requires limit.ratePerSec >= 0.0 && limit.burst >= 0.0
    requires bucket.Some? ==> 0.0 <= bucket.value.tokens <= limit.burst
    ensures 0.0 <= Refilled(limit, bucket, now).tokens <= limit.burst
    ensures bucket.Some? ==> (
      Refilled(limit, bucket, now).tokens
      <= bucket.value.tokens + Yield(limit.ratePerSec, Max(0.0, now - bucket.value.lastRefill)))
  {
    if bucket.Some? {
      var elapsed := Max(0.0, now - bucket.value.lastRefill) / 1000.0;
      ProductOfNonNegatives(elapsed, limit.ratePerSec);
    }
  }

  lemma ProductOfNonNegatives(a: real, b: real)
    requires a >= 0.0 && b >= 0.0
    ensures a * b >= 0.0 && a * b == b * a
  {
  }

  function Credit(limit: Limit, buckets: Buckets, key: string): real {
    if key in buckets then buckets[key].tokens else limit.burst
  }

  /** Whatever the clock does, no more gets through than what was there plus what the rate yields as it moves forward. */
  lemma {:induction false} PassedWithinCredit(
    limits: map<string, Limit>, buckets: Buckets, calls: seq<Call>, peerId: string, category: string)
    requires Sensible(limits) && category in limits && forall c :: c in calls ==> NoNul(c.category)
    requires TokensOk(limits[category], buckets, Key(peerId, category))
    ensures var key, limit := Key(peerId, category), limits[category];
      && TokensOk(limit, After(limits, buckets, calls), key)
      && Passed(limits, buckets, calls, peerId, category) as real
         <= Credit(limit, buckets, key)
            + Yield(limit.ratePerSec, Forward(calls, peerId, category, LastRefill(buckets, key)))
    decreases |calls|
  {
    hide Key, Allow, Refilled, Max, Sensible, NoNul, Yield;
    var key, limit := Key(peerId, category), limits[category];
    SensibleOf(limits, category);
    if calls != [] {
      var call, rest := calls[0], calls[1..];
      var after := Allow(limits, buckets, call.peerId, call.category, call.now).0;
      OneMessage(limits, buckets, call, peerId, category);
      PassedWithinCredit(limits, after, rest, peerId, category);
      if call.peerId == peerId && call.category == category {
        Accrues(limit, Get(buckets, key), call.now);
        var ms := Forward(rest, peerId, category, Some(call.now));
        if key in buckets {
          YieldAdds(limit.ratePerSec, ms, Max(0.0, call.now - buckets[key].lastRefill));
        }
      }
    } else {
      YieldGrows(limit.ratePerSec, 0.0, 0.0);
    }
  }

  lemma SensibleOf(limits: map<string, Limit>, category: string)
    requires Sensible(limits) && category in limits
    ensures limits[category].ratePerSec >= 0.0 && limits[category].burst >= 0.0
  {
  }

  ghost predicate InWindow(calls: seq<Call>, start: real, end: real) {
    && (forall i :: 0 <= i < |calls| ==> start <= calls[i].now <= end)
    && (forall i, j :: 0 <= i < j < |calls| ==> calls[i].now <= calls[j].now)
  }

  lemma {:induction false} ForwardInWindow(
    calls: seq<Call>, peerId: string, category: string, since: Option<real>, start: real, end: real)
    requires InWindow(calls, start, end) && start <= end
    ensures since.None? ==> Forward(calls, peerId, category, since) <= end - start
    ensures since.Some? && since.value <= start ==> Forward(calls, peerId, category, since) <= end - since.value
    decreases |calls|
  {
    if calls != [] {
      var first := calls[0];
      assert InWindow(calls[1..], first.now, end);
      if first.peerId == peerId && first.category == category {
        ForwardInWindow(calls[1..], peerId, category, Some(first.now), first.now, end);
      } else {
        ForwardInWindow(calls[1..], peerId, category, since, first.now, end);
      }
    }
  }

  /**
   * In any window of a run, between any other traffic, at most burst + rate * (length of the window) messages of one
   * peer in one category get through.
   */
  lemma {:induction false} WindowIsBounded(
    limits: map<string, Limit>, buckets: Buckets, calls: seq<Call>, peerId: string, category: string, start: real, end: real)
    requires Sensible(limits) && category in limits && forall c :: c in calls ==> NoNul(c.category)
    requires TokensOk(limits[category], buckets, Key(peerId, category))
    requires InWindow(calls, start, end) && start <= end
    requires Key(peerId, category) in buckets ==> buckets[Key(peerId, category)].lastRefill <= start
    ensures Passed(limits, buckets, calls, peerId, category) as real
      <= limits[category].burst + Yield(limits[category].ratePerSec, end - start)
    decreases |calls|
  {
    hide Key, Allow, Refilled, Max, Sensible, NoNul, Yield;
    var key, limit := Key(peerId, category), limits[category];
    SensibleOf(limits, category);
    YieldGrows(limit.ratePerSec, 0.0, end - start);
    if calls != [] {
      var call, rest := calls[0], calls[1..];
      var after := Allow(limits, buckets, call.peerId, call.category, call.now).0;
      OneMessage(limits, buckets, call, peerId, category);
      assert InWindow(rest, call.now, end);
      YieldGrows(limit.ratePerSec, end - call.now, end - start);
      if call.peerId == peerId && call.category == category {
        PassedWithinCredit(limits, after, rest, peerId, category);
        Accrues(limit, Get(buckets, key), call.now);
        var ms := Forward(rest, peerId, category, Some(call.now));
        ForwardInWindow(rest, peerId, category, Some(call.now), call.now, end);
        YieldGrows(limit.ratePerSec, ms, end - call.now);
      } else {
        WindowIsBounded(limits, after, rest, peerId, category, call.now, end);
      }
    }
  }

  /** The calls of one peer in one category come at least one refill apart. */
  ghost predicate Spaced(calls: seq<Call>, peerId: string, category: string, rate: real, since: Option<real>)
    decreases |calls|
  {
    if calls == [] then true
    else if calls[0].peerId != peerId || calls[0].category != category then Spaced(calls[1..], peerId, category, rate, since)
    else
      && (since.Some? ==> (calls[0].now - since.value) / 1000.0 * rate >= 1.0)
      && Spaced(calls[1..], peerId, category, rate, Some(calls[0].now))
  }

  function Sent(calls: seq<Call>, peerId: string, category: string): nat {
    if calls == [] then 0 else
      Sent(calls[1..], peerId, category) + if calls[0].peerId == peerId && calls[0].category == category then 1 else 0
  }

  /** A sender who keeps to the rate is never refused, whatever others send. */
  lemma {:induction false} SpacedSenderPasses(
    limits: map<string, Limit>, buckets: Buckets, calls: seq<Call>, peerId: string, category: string)
    requires Sensible(limits) && category in limits && forall c :: c in calls ==> NoNul(c.category)
    requires TokensOk(limits[category], buckets, Key(peerId, category)) && limits[category].burst >= 1.0
    requires Spaced(calls, peerId, category, limits[category].ratePerSec, LastRefill(buckets, Key(peerId, category)))
    ensures Passed(limits, buckets, calls, peerId, category) == Sent(calls, peerId, category)
    decreases |calls|
  {
    hide Key, Allow, Refilled, Sensible, NoNul;
    var key, limit := Key(peerId, category), limits[category];
    if calls != [] {
      var call, rest := calls[0], calls[1..];
      var after := Allow(limits, buckets, call.peerId, call.category, call.now).0;
      SensibleOf(limits, category);
      OneMessage(limits, buckets, call, peerId, category);
      if call.peerId == peerId && call.category == category {
        EnoughAfterPause(limit, Get(buckets, key), call.now);
      }
      SpacedSenderPasses(limits, after, rest, peerId, category);
    }
  }

  /**
   * What is in the bucket can be spent at once: unless every message gets through, less than one token of the credit
   * remains unspent. A peer without a bucket has the whole burst to spend.
   */
  lemma {:induction false} CreditCanBeSpent(
    limits: map<string, Limit>, buckets: Buckets, calls: seq<Call>, peerId: string, category: string)
    requires Sensible(limits) && category in limits && forall c :: c in calls ==> NoNul(c.category)
    requires TokensOk(limits[category], buckets, Key(peerId, category))
    ensures var passed, sent := Passed(limits, buckets, calls, peerId, category), Sent(calls, peerId, category);
      var credit := if Key(peerId, category) in buckets then buckets[Key(peerId, category)].tokens else limits[category].burst;
      && passed <= sent && (passed == sent || passed as real > credit - 1.0)
      && (sent as real <= credit ==> passed == sent)
    decreases |calls|
  {
    hide Key, Allow, Refilled, Max, Sensible, NoNul;
    var key, limit := Key(peerId, category), limits[category];
    if calls != [] {
      var call, rest := calls[0], calls[1..];
      var after := Allow(limits, buckets, call.peerId, call.category, call.now).0;
      SensibleOf(limits, category);
      OneMessage(limits, buckets, call, peerId, category);
      RefillTakesNothing(limit, Get(buckets, key), call.now);
      CreditCanBeSpent(limits, after, rest, peerId, category);
    }
  }

  lemma RefillTakesNothing(limit: Limit, bucket: Option<Bucket>, now: real)
    requires limit.ratePerSec >= 0.0 && (bucket.Some? ==> bucket.value.tokens <= limit.burst)
    ensures Refilled(limit, bucket, now).tokens >= if bucket.Some? then bucket.value.tokens else limit.burst
  {
    if bucket.Some? {
      ProductOfNonNegatives(Max(0.0, now - bucket.value.lastRefill) / 1000.0, limit.ratePerSec);
    }
  }

  lemma EnoughAfterPause(limit: Limit, bucket: Option<Bucket>, now: real)
    requires limit.ratePerSec >= 0.0 && limit.burst >= 1.0
    requires bucket.Some? ==>
      bucket.value.tokens >= 0.0 && (now - bucket.value.lastRefill) / 1000.0 * limit.ratePerSec >= 1.0
    ensures Refilled(limit, bucket, now).tokens >= 1.0
  {
    if bucket.Some? && now < bucket.value.lastRefill {
      ProductOfNonNegatives((bucket.value.lastRefill - now) / 1000.0, limit.ratePerSec);
    }
  }

  function OneMoreDropped(dropped: map<string, nat>, category: string): map<string, nat> {
    dropped[category := (if category in dropped then dropped[category] else 0) + 1]
  }

  /** There is a whole token, with what came in at this rate since the last time, if the clock went forward. */
  ghost predicate HasAccrued(b: Bucket, ratePerSec: real, now: real) {
    if now <= b.lastRefill then b.tokens >= 1.0
    else b.tokens + (now - b.lastRefill) / 1000.0 * ratePerSec >= 1.0
  }

  class RateLimiter {
    const limits: map<string, Limit>
    var buckets: Buckets
    var dropped: map<string, nat>

    constructor (limits: map<string, Limit>)
      ensures this.limits == limits && buckets == map[] && dropped == map[]
    {
      this.limits, buckets, dropped := limits, map[], map[];
    }

    /** Take one message off the budget; categories that are not configured are refused. */
    method AllowOne(peerId: string, category: string, now: real) returns (ok: bool)
      modifies this
      ensures (buckets, ok) == Allow(limits, old(buckets), peerId, category, now)
      ensures dropped == if ok then old(dropped) else OneMoreDropped(old(dropped), category)
      ensures category !in limits ==> !ok && buckets == old(buckets)
      ensures category in limits ==>
        var limit, key := limits[category], Key(peerId, category);
        (ok <==> limit.burst >= 1.0 && (key in old(buckets) ==> HasAccrued(old(buckets)[key], limit.ratePerSec, now)))
    {
      if category !in limits {
        CountDropped(category);
        return false;
      }
      var limit, key := limits[category], Key(peerId, category);
      if key !in buckets {
        buckets := buckets[key := Bucket(limit.burst, now)];
      } else {
        var elapsedSec := Max(0.0, now - buckets[key].lastRefill) / 1000.0;
        var tokens := Min(limit.burst, buckets[key].tokens + elapsedSec * limit.ratePerSec);
        buckets := buckets[key := Bucket(tokens, now)];
      }
      assert buckets == old(buckets)[key := Refilled(limit, Get(old(buckets), key), now)];
      if buckets[key].tokens < 1.0 {
        CountDropped(category);
        return false;
      }
      buckets := buckets[key := Bucket(buckets[key].tokens - 1.0, now)];
      assert buckets == old(buckets)[key := buckets[key]];
      return true;
    }

    method CountDropped(category: string)
      modifies `dropped
      ensures dropped == OneMoreDropped(old(dropped), category)
    {
      dropped := dropped[category := (if category in dropped then dropped[category] else 0) + 1];
    }

    /** A peer that leaves loses its buckets and nobody else's. */
    method Forget(peerId: string)
      modifies `buckets
      ensures buckets == map k | k in old(buckets) && !EndsWith(k, ['\0'] + peerId) :: old(buckets)[k]
      ensures NoNul(peerId) ==> forall other, category :: NoNul(other) ==>
        (Key(other, category) in buckets <==> Key(other, category) in old(buckets) && other != peerId)
    {
      var todo := buckets.Keys;
      while todo != {}
        invariant todo <= buckets.Keys <= old(buckets.Keys)
        invariant forall k :: k in old(buckets) ==>
          (k in buckets <==> k in todo || !EndsWith(k, ['\0'] + peerId))
          && (k in buckets ==> buckets[k] == old(buckets)[k])
      {
        var k :| k in todo;
        if EndsWith(k, ['\0'] + peerId) { buckets := buckets - {k}; }
        todo := todo - {k};
      }
      forall other, category | NoNul(peerId) && NoNul(other)
        ensures Key(other, category) in buckets <==> Key(other, category) in old(buckets) && other != peerId
      {
        EndsWithIffOwn(peerId, category, other);
      }
    }
  }
}
