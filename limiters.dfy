/** The limiter snapshot (RateLimiterCO): a fixed configuration and the map
    from identity to bucket, replaced (never mutated) on every update. */
module Limiters {
  import opened Wrappers
  import opened Buckets

  type UserId = string

  /** The source's IllegalArgumentException, with its message. */
  datatype Error = IllegalArgument(message: string)

  datatype LimiterState = LimiterState(capacity: real, leakRate: real, userBuckets: map<UserId, BucketInfo>)

  /** Every snapshot the source can build has passed its constructor's
      validation: positive capacity and positive leak rate. */
  type RateLimiter = l: LimiterState | 0.0 < l.capacity && 0.0 < l.leakRate
    witness LimiterState(1.0, 1.0, map[])

  /** The validating constructor: capacity is checked first, then leak rate;
      on success the snapshot holds exactly the given configuration and map. */
  function NewRateLimiter(capacity: real, leakRate: real, userBuckets: map<UserId, BucketInfo>)
    : (r: Result<RateLimiter, Error>)
    ensures r.Success? <==> 0.0 < capacity && 0.0 < leakRate
    ensures capacity <= 0.0 ==> r == Failure(IllegalArgument("Capacity must be positive"))
    ensures 0.0 < capacity && leakRate <= 0.0 ==> r == Failure(IllegalArgument("Leak rate must be positive"))
    ensures r.Success? ==> r.value.capacity == capacity && r.value.leakRate == leakRate
    ensures r.Success? ==> r.value.userBuckets == userBuckets
  {
    if capacity <= 0.0 then Failure(IllegalArgument("Capacity must be positive"))
    else if leakRate <= 0.0 then Failure(IllegalArgument("Leak rate must be positive"))
    else Success(LimiterState(capacity, leakRate, userBuckets))
  }

  /** The public constructor: a validated snapshot that tracks no identity. */
  function Create(capacity: real, leakRate: real): (r: Result<RateLimiter, Error>)
    ensures r.Success? <==> 0.0 < capacity && 0.0 < leakRate
    ensures r.Success? ==> r.value.userBuckets == map[]
  {
    NewRateLimiter(capacity, leakRate, map[])
  }

  /** The stored bucket of an identity, verbatim, or None when the identity
      has never been observed. */
  function GetBucketState(l: RateLimiter, userId: UserId): (r: Option<BucketInfo>)
    ensures r.Some? <==> userId in l.userBuckets
    ensures r.Some? ==> r.value == l.userBuckets[userId]
  {
    if userId in l.userBuckets then Some(l.userBuckets[userId]) else None
  }

  /** A new snapshot in which userId holds bucketInfo (None removes the
      identity); every other identity and the configuration are unchanged. */
  function WithUpdatedBucket(l: RateLimiter, userId: UserId, bucketInfo: Option<BucketInfo>): (r: RateLimiter)
    ensures r.capacity == l.capacity && r.leakRate == l.leakRate
    ensures GetBucketState(r, userId) == bucketInfo
    ensures forall v :: v != userId ==> GetBucketState(r, v) == GetBucketState(l, v)
  {
    var newBuckets := if bucketInfo.None? then l.userBuckets - {userId}
                      else l.userBuckets[userId := bucketInfo.value];
    LimiterState(l.capacity, l.leakRate, newBuckets)
  }

  /** The bucket of userId as it would be at timestamp: an identity never seen
      gets an empty bucket observed at timestamp, a known one is leaked at the
      snapshot's rate. */
  function GetLeakedBucketInfo(l: RateLimiter, userId: UserId, timestamp: real): (r: BucketInfo)
    ensures r.lastUpdateTime == timestamp
    ensures userId !in l.userBuckets ==> r.currentLevel == 0.0
    ensures userId in l.userBuckets ==> r == Leak(l.userBuckets[userId], timestamp, l.leakRate)
    ensures userId in l.userBuckets ==> r.currentLevel <= l.userBuckets[userId].currentLevel
  {
    var currentBucket := GetBucketState(l, userId);
    if currentBucket.None? then NewBucket(0.0, timestamp)
    else Leak(currentBucket.value, timestamp, l.leakRate)
  }

  /** Storing a bucket for a new identity and removing it again gives back
      the original snapshot. */
  lemma UpdateThenRemoveRestores(l: RateLimiter, userId: UserId, b: BucketInfo)
    requires userId !in l.userBuckets
    ensures WithUpdatedBucket(WithUpdatedBucket(l, userId, Some(b)), userId, None) == l
  {
  }

  /** Writing back the stored bucket (or None for an absent identity) leaves
      the snapshot as it was. */
  lemma WriteBackIsIdentity(l: RateLimiter, userId: UserId)
    ensures WithUpdatedBucket(l, userId, GetBucketState(l, userId)) == l
  {
  }

  /** The last write to an identity wins. */
  lemma LastUpdateWins(l: RateLimiter, userId: UserId, b1: Option<BucketInfo>, b2: Option<BucketInfo>)
    ensures WithUpdatedBucket(WithUpdatedBucket(l, userId, b1), userId, b2) == WithUpdatedBucket(l, userId, b2)
  {
  }
}
