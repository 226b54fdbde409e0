/** The concrete request histories the repository's tests walk through,
    proved of the model. */
module Scenarios {
  import opened Wrappers
  import opened Buckets
  import Limiters
  import opened LimiterService

  /** Capacity 5, leak rate 1: five requests at t=0 are admitted with levels
      1 to 5; the sixth is rejected, level stays 5 and the timestamp is 0. */
  lemma BurstFillsThenRejects()
    ensures CreateRateLimiter(5.0, 1.0).Success?
    ensures var l0 := CreateRateLimiter(5.0, 1.0).value;
      var r1 := Admit(l0, "user1", 0.0);
      var r2 := Admit(r1.newLimiterState, "user1", 0.0);
      var r3 := Admit(r2.newLimiterState, "user1", 0.0);
      var r4 := Admit(r3.newLimiterState, "user1", 0.0);
      var r5 := Admit(r4.newLimiterState, "user1", 0.0);
      var r6 := Admit(r5.newLimiterState, "user1", 0.0);
      && r1.allowed && r2.allowed && r3.allowed && r4.allowed && r5.allowed && !r6.allowed
      && Limiters.GetBucketState(r1.newLimiterState, "user1") == Some(BucketState(1.0, 0.0))
      && Limiters.GetBucketState(r2.newLimiterState, "user1") == Some(BucketState(2.0, 0.0))
      && Limiters.GetBucketState(r3.newLimiterState, "user1") == Some(BucketState(3.0, 0.0))
      && Limiters.GetBucketState(r4.newLimiterState, "user1") == Some(BucketState(4.0, 0.0))
      && Limiters.GetBucketState(r5.newLimiterState, "user1") == Some(BucketState(5.0, 0.0))
      && Limiters.GetBucketState(r6.newLimiterState, "user1") == Some(BucketState(5.0, 0.0))
  {
  }

  /** Capacity 5, leak rate 1: three requests at t=0, then one at t=5 is
      admitted with level 1 (drained to 0, then one unit added). */
  lemma IdleGapDrainsFully()
    ensures CreateRateLimiter(5.0, 1.0).Success?
    ensures var l0 := CreateRateLimiter(5.0, 1.0).value;
      var r1 := Admit(l0, "user1", 0.0);
      var r2 := Admit(r1.newLimiterState, "user1", 0.0);
      var r3 := Admit(r2.newLimiterState, "user1", 0.0);
      var r4 := Admit(r3.newLimiterState, "user1", 5.0);
      && r4.allowed
      && Limiters.GetBucketState(r4.newLimiterState, "user1") == Some(BucketState(1.0, 5.0))
  {
  }

  /** Capacity 5, leak rate 0.5: two requests at t=0, then one at t=1.5 is
      admitted with level 2 - 0.75 + 1 = 2.25. */
  lemma FractionalLeak()
    ensures CreateRateLimiter(5.0, 0.5).Success?
    ensures var l0 := CreateRateLimiter(5.0, 0.5).value;
      var r1 := Admit(l0, "user1", 0.0);
      var r2 := Admit(r1.newLimiterState, "user1", 0.0);
      var r3 := Admit(r2.newLimiterState, "user1", 1.5);
      && r3.allowed
      && Limiters.GetBucketState(r3.newLimiterState, "user1") == Some(BucketState(2.25, 1.5))
  {
  }

  /** Capacity 5, leak rate 1: a request at t=5 and then one at t=3 are both
      admitted; no drain is applied backwards, so the level is 2 and the
      timestamp 3. */
  lemma BackwardsTimeStillAdmits()
    ensures CreateRateLimiter(5.0, 1.0).Success?
    ensures var l0 := CreateRateLimiter(5.0, 1.0).value;
      var r1 := Admit(l0, "user1", 5.0);
      var r2 := Admit(r1.newLimiterState, "user1", 3.0);
      && r1.allowed && r2.allowed
      && Limiters.GetBucketState(r2.newLimiterState, "user1") == Some(BucketState(2.0, 3.0))
  {
  }

  /** Capacity 5, leak rate 1: after three requests at t=0, the projection at
      t=2 shows level 1 observed at 2, while the snapshot still holds level 3
      observed at 0. */
  lemma ProjectionLeavesSnapshotAlone()
    ensures CreateRateLimiter(5.0, 1.0).Success?
    ensures var l0 := CreateRateLimiter(5.0, 1.0).value;
      var r1 := Admit(l0, "user1", 0.0);
      var r2 := Admit(r1.newLimiterState, "user1", 0.0);
      var r3 := Admit(r2.newLimiterState, "user1", 0.0);
      && GetBucketStateAtTime(Some(r3.newLimiterState), Some("user1"), 2.0) == Success(BucketState(1.0, 2.0))
      && GetBucketState(Some(r3.newLimiterState), Some("user1")) == Success(Some(BucketState(3.0, 0.0)))
  {
  }

  /** Capacity 2, leak rate 1, all at t=0: user1 fills its bucket and is
      then rejected, while user2 is still admitted; user1 stays at 2 and
      user2 holds 1. */
  lemma IdentitiesAreIndependent()
    ensures CreateRateLimiter(2.0, 1.0).Success?
    ensures var l0 := CreateRateLimiter(2.0, 1.0).value;
      var u1a := Admit(l0, "user1", 0.0);
      var u1b := Admit(u1a.newLimiterState, "user1", 0.0);
      var u1c := Admit(u1b.newLimiterState, "user1", 0.0);
      var u2a := Admit(u1c.newLimiterState, "user2", 0.0);
      && u1a.allowed && u1b.allowed && !u1c.allowed && u2a.allowed
      && Limiters.GetBucketState(u2a.newLimiterState, "user1") == Some(BucketState(2.0, 0.0))
      && Limiters.GetBucketState(u2a.newLimiterState, "user2") == Some(BucketState(1.0, 0.0))
  {
  }

  /** Invalid configurations and missing inputs are invalid-argument errors. */
  lemma InvalidInputsAreRejected(l: Limiters.RateLimiter)
    ensures CreateRateLimiter(0.0, 1.0).Failure? && CreateRateLimiter(-1.0, 1.0).Failure?
    ensures CreateRateLimiter(5.0, 0.0).Failure? && CreateRateLimiter(5.0, -1.0).Failure?
    ensures AllowRequest(None, Some("user1"), 0.0).Failure?
    ensures AllowRequest(Some(l), None, 0.0).Failure?
    ensures GetBucketState(None, Some("user1")).Failure?
    ensures GetBucketState(Some(l), None).Failure?
  {
  }
}
