/**
 The in-memory rate limiter store (internal/ratelimit/ratelimit.go): Allow and one pass of the
 cleanup loop, as functions on values and as a class whose buckets are heap objects.
 */
module RateLimiter {
  import opened Common

  datatype Bucket = Bucket(tokens: int, lastCheck: int)

  datatype Answer = Answer(allowed: bool, remaining: int)

  /** Division as Go does it: the quotient is cut toward zero. */
  function QuoTrunc(a: int, b: int): int
    requires b > 0
  {
    if a < 0 then -(-a / b) else a / b
  }

  /** What Allow does to one identifier's entry, and what it answers. */
  function AllowBucket(entry: Option<Bucket>, now: int, limit: int, window: int): (Bucket, Answer)
    requires window > 0
  {
    match entry
    case None => (Bucket(limit - 1, now), Answer(true, limit - 1))
    case Some(b) =>
      var tokensToAdd := QuoTrunc(now - b.lastCheck, window) * limit;
      var b' := if tokensToAdd > 0 then Bucket(Min(b.tokens + tokensToAdd, limit), now) else b;
      if b'.tokens > 0 then (b'.(tokens := b'.tokens - 1), Answer(true, b'.tokens - 1)) else (b', Answer(false, 0))
  }

  function Lookup(m: map<string, Bucket>, id: string): Option<Bucket> {
    if id in m then Some(m[id]) else None
  }

  predicate Expired(b: Bucket, now: int, interval: int) { b.lastCheck < now - 2 * interval }

  /** The entries that a cleanup pass leaves. */
  function Sweep(m: map<string, Bucket>, now: int, interval: int): map<string, Bucket> {
    map id | id in m && !Expired(m[id], now, interval) :: m[id]
  }

  /** A pass leaves exactly the entries refilled at most two intervals ago, as they are. */
  lemma SweepLeaves(m: map<string, Bucket>, now: int, interval: int, id: string)
    ensures id in Sweep(m, now, interval) <==> id in m && now - m[id].lastCheck <= 2 * interval
    ensures id in Sweep(m, now, interval) ==> Sweep(m, now, interval)[id] == m[id]
  {
  }

  lemma QuotientLeaves(n: int, b: int)
    requires n >= 0 && b > 0
    ensures 0 <= n - b * (n / b) < b
  {
  }

  /** The quotient of Go is cut toward zero: it leaves a remainder smaller than the divisor, of the sign of `a`. */
  lemma TruncatesTowardZero(a: int, b: int)
    requires b > 0
    ensures var r := a - b * QuoTrunc(a, b); -b < r < b && (a >= 0 ==> r >= 0) && (a <= 0 ==> r <= 0)
  {
    if a < 0 {
      QuotientLeaves(-a, b);
      Negated(b, -a / b);
    } else {
      QuotientLeaves(a, b);
    }
  }

  lemma Negated(b: int, q: int)
    ensures b * (-q) == -(b * q)
  {
  }

  class TokenBucket {
    var tokens: int
    var lastCheck: int

    constructor (tokens: int, lastCheck: int)
      ensures this.tokens == tokens && this.lastCheck == lastCheck
    {
      this.tokens, this.lastCheck := tokens, lastCheck;
    }

    function View(): Bucket
      reads this
    {
      Bucket(tokens, lastCheck)
    }
  }

  class TokenBucketStore {
    var buckets: map<string, TokenBucket>
    const cleanupInterval: int

    /** No two identifiers share a bucket object. */
    ghost predicate Valid()
      reads this
    {
      forall i, j :: i in buckets && j in buckets && buckets[i] == buckets[j] ==> i == j
    }

    ghost function Contents(): map<string, Bucket>
      reads this, buckets.Values
    {
      map id | id in buckets :: buckets[id].View()
    }

    constructor (interval: int)
      ensures Valid() && Contents() == map[] && cleanupInterval == interval
    {
      buckets, cleanupInterval := map[], interval;
    }

    method Allow(identifier: string, now: int, limit: int, window: int) returns (allowed: bool, remaining: int)
      requires Valid() && window > 0
      modifies this, buckets.Values
      ensures Valid() && fresh(buckets.Values - old(buckets.Values))
      ensures var (b, answer) := AllowBucket(Lookup(old(Contents()), identifier), now, limit, window);
        && Contents() == old(Contents())[identifier := b]
        && Answer(allowed, remaining) == answer
    {
      if identifier !in buckets {
        var created := new TokenBucket(limit - 1, now);
        assert forall id :: id in buckets ==> buckets[id] != created;
        buckets := buckets[identifier := created];
        return true, limit - 1;
      }
      hide QuoTrunc, Min;
      var bucket := buckets[identifier];
      assert forall id :: id in buckets && id != identifier ==> buckets[id] != bucket;
      var tokensToAdd := QuoTrunc(now - bucket.lastCheck, window) * limit;
      if tokensToAdd > 0 {
        bucket.tokens := Min(bucket.tokens + tokensToAdd, limit);
        bucket.lastCheck := now;
      }
      if bucket.tokens > 0 {
        bucket.tokens := bucket.tokens - 1;
        return true, bucket.tokens;
      }
      return false, 0;
    }

    /** One tick of the cleanup goroutine. */
    method CleanupPass(now: int)
      requires Valid()
      modifies this
      ensures Valid() && buckets.Values <= old(buckets.Values)
      ensures Contents() == Sweep(old(Contents()), now, cleanupInterval)
      ensures forall id :: id in Contents() <==>
        id in old(Contents()) && now - old(Contents())[id].lastCheck <= 2 * cleanupInterval
    {
      var threshold := now - 2 * cleanupInterval;
      var keys := buckets.Keys;
      while keys != {}
        invariant keys <= buckets.Keys <= old(buckets).Keys
        invariant forall id :: id in buckets ==> buckets[id] == old(buckets)[id]
        invariant forall id :: id in old(buckets) && id !in keys ==>
          (id in buckets <==> !(old(buckets)[id].lastCheck < threshold))
        decreases keys
      {
        var key :| key in keys;
        if buckets[key].lastCheck < threshold {
          buckets := buckets - {key};
        }
        keys := keys - {key};
      }
    }
  }
}
