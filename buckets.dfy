/** One identity's accumulator (BucketInfoCO): an immutable fill level and the
    time it was last observed, with the leak and fill transitions. Java doubles
    are modelled as exact reals. */
module Buckets {
  import opened Wrappers

  datatype BucketState = BucketState(currentLevel: real, lastUpdateTime: real)

  /** Every bucket the source can build goes through its constructor, which
      clamps the level at zero, so no bucket has a negative level. */
  type BucketInfo = b: BucketState | b.currentLevel >= 0.0 witness BucketState(0.0, 0.0)

  /** The constructor: the level is clamped at zero, the timestamp kept. */
  function NewBucket(currentLevel: real, lastUpdateTime: real): (b: BucketInfo)
    ensures b.lastUpdateTime == lastUpdateTime
    ensures currentLevel >= 0.0 ==> b.currentLevel == currentLevel
    ensures currentLevel < 0.0 ==> b.currentLevel == 0.0
  {
    BucketState(if 0.0 <= currentLevel then currentLevel else 0.0, lastUpdateTime)
  }

  /** The bucket as observed at newTimestamp: a timestamp earlier than the last
      observation only moves the clock; otherwise the level drains by
      elapsed time times leakRate, and never below zero. */
  function Leak(b: BucketInfo, newTimestamp: real, leakRate: real): (r: BucketInfo)
    ensures r.lastUpdateTime == newTimestamp
    ensures newTimestamp < b.lastUpdateTime ==> r.currentLevel == b.currentLevel
    ensures b.lastUpdateTime <= newTimestamp && b.currentLevel <= (newTimestamp - b.lastUpdateTime) * leakRate ==>
              r.currentLevel == 0.0
    ensures b.lastUpdateTime <= newTimestamp && (newTimestamp - b.lastUpdateTime) * leakRate < b.currentLevel ==>
              r.currentLevel == b.currentLevel - (newTimestamp - b.lastUpdateTime) * leakRate
    ensures 0.0 <= leakRate ==> r.currentLevel <= b.currentLevel
  {
    if newTimestamp < b.lastUpdateTime then
      NewBucket(b.currentLevel, newTimestamp)
    else
      var timeDelta := newTimestamp - b.lastUpdateTime;
      var leakedAmount := timeDelta * leakRate;
      NewBucket(b.currentLevel - leakedAmount, newTimestamp)
  }

  /** One request's unit added, or None when it would push the level over the
      capacity; the timestamp is left alone. */
  function AddRequest(b: BucketInfo, capacity: real): (r: Option<BucketInfo>)
    ensures r.None? <==> b.currentLevel + 1.0 > capacity
    ensures r.Some? ==> r.value.currentLevel == b.currentLevel + 1.0
    ensures r.Some? ==> r.value.currentLevel <= capacity
    ensures r.Some? ==> r.value.lastUpdateTime == b.lastUpdateTime
  {
    if b.currentLevel + 1.0 > capacity then None
    else Some(NewBucket(b.currentLevel + 1.0, b.lastUpdateTime))
  }

  /** Long idle gaps recover fully: once level / leakRate time units have
      passed, the bucket is exactly empty. */
  lemma LeakDrainsToZero(b: BucketInfo, newTimestamp: real, leakRate: real)
    requires 0.0 < leakRate
    requires b.lastUpdateTime + b.currentLevel / leakRate <= newTimestamp
    ensures Leak(b, newTimestamp, leakRate).currentLevel == 0.0
  {
  }

  /** Leaking to t1 and then to t2 is the same as leaking straight to t2:
      the drain depends only on the total elapsed time. */
  lemma LeakComposes(b: BucketInfo, t1: real, t2: real, leakRate: real)
    requires 0.0 <= leakRate
    requires b.lastUpdateTime <= t1 <= t2
    ensures Leak(Leak(b, t1, leakRate), t2, leakRate) == Leak(b, t2, leakRate)
  {
  }

  /** The later the observation, the lower (or equal) the level, also when
      the earlier one came before the bucket's last observation. */
  lemma LeakMonotoneInTime(b: BucketInfo, t1: real, t2: real, leakRate: real)
    requires 0.0 <= leakRate
    requires t1 <= t2
    ensures Leak(b, t2, leakRate).currentLevel <= Leak(b, t1, leakRate).currentLevel
  {
    if b.lastUpdateTime <= t1 {
      LeakComposes(b, t1, t2, leakRate);
    }
  }

  /** Observing a bucket again at the time it was last observed changes
      nothing. */
  lemma LeakAtLastUpdateIsIdentity(b: BucketInfo, leakRate: real)
    ensures Leak(b, b.lastUpdateTime, leakRate) == b
  {
  }
}
