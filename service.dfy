/** The admission operation and the inspection accessors
    (LeakyBucketRateLimiterService): null checks on the inputs, then the
    leak-then-fill transition on the identity's bucket. */
module LimiterService {
  import opened Wrappers
  import opened Buckets
  import Limiters

  type RateLimiter = Limiters.RateLimiter
  type UserId = Limiters.UserId
  type Error = Limiters.Error

  /** The decision and the snapshot to use for the next call. */
  datatype RateLimiterResponse = RateLimiterResponse(allowed: bool, newLimiterState: RateLimiter)

  const NullLimiter: Error := Limiters.IllegalArgument("Rate limiter cannot be null")
  const NullUserId: Error := Limiters.IllegalArgument("User ID cannot be null")

  /** A limiter with the given configuration and no identities, or the
      constructor's invalid-argument error. */
  function CreateRateLimiter(capacity: real, leakRate: real): (r: Result<RateLimiter, Error>)
    ensures r.Success? <==> 0.0 < capacity && 0.0 < leakRate
    ensures capacity <= 0.0 ==> r == Failure(Limiters.IllegalArgument("Capacity must be positive"))
    ensures 0.0 < capacity && leakRate <= 0.0 ==> r == Failure(Limiters.IllegalArgument("Leak rate must be positive"))
    ensures r.Success? ==> r.value.capacity == capacity && r.value.leakRate == leakRate
    ensures r.Success? ==> forall u :: Limiters.GetBucketState(r.value, u) == None
  {
    Limiters.Create(capacity, leakRate)
  }

  /** The admission step once the inputs are known to be present: leak the
      identity's bucket to timestamp, then try to add one unit. The request is
      admitted exactly when the leaked level has room for one more unit; the
      stored bucket is the leaked one, plus the unit when admitted, observed at
      timestamp; no other identity and no configuration changes. */
  function Admit(l: RateLimiter, userId: UserId, timestamp: real): (r: RateLimiterResponse)
    ensures var leaked := Limiters.GetLeakedBucketInfo(l, userId, timestamp);
      r.allowed <==> leaked.currentLevel + 1.0 <= l.capacity
    ensures var leaked := Limiters.GetLeakedBucketInfo(l, userId, timestamp);
      Limiters.GetBucketState(r.newLimiterState, userId)
        == Some(BucketState(if r.allowed then leaked.currentLevel + 1.0 else leaked.currentLevel, timestamp))
    ensures r.newLimiterState.capacity == l.capacity && r.newLimiterState.leakRate == l.leakRate
    ensures forall v :: v != userId ==>
      Limiters.GetBucketState(r.newLimiterState, v) == Limiters.GetBucketState(l, v)
  {
    var currentBucket := Limiters.GetLeakedBucketInfo(l, userId, timestamp);
    var newBucket := AddRequest(currentBucket, l.capacity);
    if newBucket.None? then
      var updatedBucket := NewBucket(currentBucket.currentLevel, timestamp);
      RateLimiterResponse(false, Limiters.WithUpdatedBucket(l, userId, Some(updatedBucket)))
    else
      RateLimiterResponse(true, Limiters.WithUpdatedBucket(l, userId, newBucket))
  }

  /** allowRequest: an invalid-argument error for a missing limiter (checked
      first) or a missing identity, otherwise the admission step. */
  function AllowRequest(limiter: Option<RateLimiter>, userId: Option<UserId>, timestamp: real)
    : (r: Result<RateLimiterResponse, Error>)
    ensures limiter.None? ==> r == Failure(NullLimiter)
    ensures limiter.Some? && userId.None? ==> r == Failure(NullUserId)
    ensures limiter.Some? && userId.Some? ==> r == Success(Admit(limiter.value, userId.value, timestamp))
  {
    if limiter.None? then Failure(NullLimiter)
    else if userId.None? then Failure(NullUserId)
    else Success(Admit(limiter.value, userId.value, timestamp))
  }

  /** getBucketState: the stored bucket verbatim, None for an identity never
      observed, or the invalid-argument error for a missing input. */
  function GetBucketState(limiter: Option<RateLimiter>, userId: Option<UserId>)
    : (r: Result<Option<BucketInfo>, Error>)
    ensures limiter.None? ==> r == Failure(NullLimiter)
    ensures limiter.Some? && userId.None? ==> r == Failure(NullUserId)
    ensures limiter.Some? && userId.Some? ==> r.Success?
    ensures limiter.Some? && userId.Some? ==>
      (r.value.Some? <==> userId.value in limiter.value.userBuckets)
    ensures limiter.Some? && userId.Some? && r.value.Some? ==>
      r.value.value == limiter.value.userBuckets[userId.value]
  {
    if limiter.None? then Failure(NullLimiter)
    else if userId.None? then Failure(NullUserId)
    else Success(Limiters.GetBucketState(limiter.value, userId.value))
  }

  /** getBucketStateAtTime: the bucket as it would be at timestamp (an empty
      one for an identity never observed), or the invalid-argument error for a
      missing input. Only a bucket is returned: the limiter is not touched. */
  function GetBucketStateAtTime(limiter: Option<RateLimiter>, userId: Option<UserId>, timestamp: real)
    : (r: Result<BucketInfo, Error>)
    ensures limiter.None? ==> r == Failure(NullLimiter)
    ensures limiter.Some? && userId.None? ==> r == Failure(NullUserId)
    ensures limiter.Some? && userId.Some? ==> r.Success? && r.value.lastUpdateTime == timestamp
    ensures limiter.Some? && userId.Some? && userId.value !in limiter.value.userBuckets ==>
      r.value.currentLevel == 0.0
    ensures limiter.Some? && userId.Some? && userId.value in limiter.value.userBuckets ==>
      r.value == Leak(limiter.value.userBuckets[userId.value], timestamp, limiter.value.leakRate)
  {
    if limiter.None? then Failure(NullLimiter)
    else if userId.None? then Failure(NullUserId)
    else Success(Limiters.GetLeakedBucketInfo(limiter.value, userId.value, timestamp))
  }

  /** Every stored level is within the capacity (levels are never negative
      by construction of BucketInfo). */
  ghost predicate WithinCapacity(l: RateLimiter)
  {
    forall u :: u in l.userBuckets ==> l.userBuckets[u].currentLevel <= l.capacity
  }

  /** Admission keeps every stored level within [0, capacity]. */
  lemma AdmitPreservesCapacity(l: RateLimiter, userId: UserId, timestamp: real)
    requires WithinCapacity(l)
    ensures WithinCapacity(Admit(l, userId, timestamp).newLimiterState)
  {
  }

  /** The projected bucket predicts the decision: a request is admitted
      exactly when getBucketStateAtTime at the same timestamp shows room for
      one more unit. */
  lemma ProjectionPredictsAdmission(l: RateLimiter, userId: UserId, timestamp: real)
    ensures Admit(l, userId, timestamp).allowed <==>
      GetBucketStateAtTime(Some(l), Some(userId), timestamp).value.currentLevel + 1.0 <= l.capacity
  {
  }

  /** A rejection is idempotent: repeating the rejected request at the same
      timestamp is rejected again and leaves the snapshot as it was. */
  lemma RejectionIsIdempotent(l: RateLimiter, userId: UserId, timestamp: real)
    requires !Admit(l, userId, timestamp).allowed
    ensures Admit(Admit(l, userId, timestamp).newLimiterState, userId, timestamp)
      == Admit(l, userId, timestamp)
  {
    var leaked := Limiters.GetLeakedBucketInfo(l, userId, timestamp);
    LeakAtLastUpdateIsIdentity(leaked, l.leakRate);
  }

  /** A bucket at or above capacity asked again at (or before) its last
      observation is rejected and keeps its level; only its timestamp moves. */
  lemma FullBucketStaysFull(l: RateLimiter, userId: UserId, timestamp: real)
    requires userId in l.userBuckets
    requires l.capacity <= l.userBuckets[userId].currentLevel
    requires timestamp <= l.userBuckets[userId].lastUpdateTime
    ensures !Admit(l, userId, timestamp).allowed
    ensures Limiters.GetBucketState(Admit(l, userId, timestamp).newLimiterState, userId)
      == Some(BucketState(l.userBuckets[userId].currentLevel, timestamp))
  {
  }

  /** Clock regression freezes draining: a request timestamped before the
      bucket's last observation sees the stored level unchanged, is admitted
      exactly when that level has room, and moves the timestamp back. */
  lemma BackwardsTimeFreezesLevel(l: RateLimiter, userId: UserId, timestamp: real)
    requires userId in l.userBuckets
    requires timestamp < l.userBuckets[userId].lastUpdateTime
    ensures var level := l.userBuckets[userId].currentLevel;
      var r := Admit(l, userId, timestamp);
      && (r.allowed <==> level + 1.0 <= l.capacity)
      && Limiters.GetBucketState(r.newLimiterState, userId)
           == Some(BucketState(if r.allowed then level + 1.0 else level, timestamp))
  {
  }

  /** A first request from a new identity is admitted with level 1 observed at
      its own timestamp, provided one unit fits in the capacity at all. */
  lemma NewIdentityAdmitted(l: RateLimiter, userId: UserId, timestamp: real)
    requires userId !in l.userBuckets
    requires 1.0 <= l.capacity
    ensures Admit(l, userId, timestamp).allowed
    ensures Limiters.GetBucketState(Admit(l, userId, timestamp).newLimiterState, userId)
      == Some(BucketState(1.0, timestamp))
  {
  }

  /** Drain-to-admit: once level / leakRate time units have passed since the
      last observation, a request is admitted and leaves level exactly 1. */
  lemma DrainedBucketAdmits(l: RateLimiter, userId: UserId, timestamp: real)
    requires 1.0 <= l.capacity
    requires userId in l.userBuckets
    requires l.userBuckets[userId].lastUpdateTime + l.userBuckets[userId].currentLevel / l.leakRate <= timestamp
    ensures Admit(l, userId, timestamp).allowed
    ensures Limiters.GetBucketState(Admit(l, userId, timestamp).newLimiterState, userId)
      == Some(BucketState(1.0, timestamp))
  {
  }

  /** With a capacity below one unit no request is ever admitted. */
  lemma NothingFitsBelowOneUnit(l: RateLimiter, userId: UserId, timestamp: real)
    requires l.capacity < 1.0
    ensures !Admit(l, userId, timestamp).allowed
  {
  }

  /** One call of the caller's loop: an identity and a timestamp. */
  datatype Request = Request(userId: UserId, timestamp: real)

  /** The caller's protocol: each response's snapshot is the input of the next
      call. */
  function Replay(l: RateLimiter, requests: seq<Request>): (r: RateLimiter)
    ensures r.capacity == l.capacity && r.leakRate == l.leakRate
    decreases |requests|
  {
    if requests == [] then l
    else
      var last := requests[|requests| - 1];
      Admit(Replay(l, requests[..|requests| - 1]), last.userId, last.timestamp).newLimiterState
  }

  /** Over any sequence of requests, with timestamps in any order, every
      stored level stays within [0, capacity]. */
  lemma {:induction false} ReplayPreservesCapacity(l: RateLimiter, requests: seq<Request>)
    requires WithinCapacity(l)
    ensures WithinCapacity(Replay(l, requests))
    decreases |requests|
  {
    if requests != [] {
      var last := requests[|requests| - 1];
      ReplayPreservesCapacity(l, requests[..|requests| - 1]);
      AdmitPreservesCapacity(Replay(l, requests[..|requests| - 1]), last.userId, last.timestamp);
    }
  }

  /** Identity isolation: requests by other identities never touch an
      identity's stored bucket. */
  lemma {:induction false} ReplayIsolatesIdentities(l: RateLimiter, requests: seq<Request>, userId: UserId)
    requires forall i :: 0 <= i < |requests| ==> requests[i].userId != userId
    ensures Limiters.GetBucketState(Replay(l, requests), userId) == Limiters.GetBucketState(l, userId)
    decreases |requests|
  {
    if requests != [] {
      ReplayIsolatesIdentities(l, requests[..|requests| - 1], userId);
    }
  }
}
