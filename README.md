# Leaky-bucket rate limiter — verified model

A Dafny model of a purely functional leaky-bucket rate limiter. Each identity
(user id) owns a bucket whose fill level grows by one unit per admitted request
and drains continuously at the limiter's leak rate. A limiter snapshot holds
the capacity, the leak rate and the map from identity to bucket. The admission
operation takes a snapshot, an identity and a caller-supplied timestamp. It
returns the decision and a new snapshot.

Files:

- `wrappers.dfy` (`Wrappers`): `Option`, which stands for Java's nullable references, and `Result`, which stands for a value or a thrown exception.
- `buckets.dfy` (`Buckets`): `BucketInfoCO`. Its clamping constructor, `leak`, `addRequest`, and lemmas about draining.
- `limiters.dfy` (`Limiters`): `RateLimiterCO`. Its validating constructors, `getBucketState`, `withUpdatedBucket`, `getLeakedBucketInfo`, and lemmas about the copy-on-write update.
- `service.dfy` (`LimiterService`): `LeakyBucketRateLimiterService` and `RateLimiterResponse`. The null checks, the admission step, the two accessors, and lemmas about single and repeated admissions.
- `scenarios.dfy` (`Scenarios`): the request histories of the repository's JUnit tests, proved of the model.

Modelling choices:

- Java `double` is modelled as `real`. Quantities are exact, and IEEE rounding is not modelled.
- A Java `null` passed to the service, and the `null` results of `addRequest` and `getBucketState`, are modelled as `Option.None`. A thrown `IllegalArgumentException` is modelled as `Failure(IllegalArgument(message))`, carrying the source's message.
- `BucketInfo` is a subset type with `currentLevel >= 0`. The Java constructor clamps the level at zero, so no bucket with a negative level can exist. `NewBucket` is that constructor.
- `RateLimiter` is a subset type with positive capacity and leak rate. The Java constructor throws unless both are positive, so no other snapshot can exist. `NewRateLimiter` is that validation. Because of it, `withUpdatedBucket`, which re-runs the constructor on an already valid configuration, can never fail. It is modelled as a total function.
- Values are immutable, so `withUpdatedBucket` and `getBucketStateAtTime` cannot alter the snapshot they are given. The Java code gets the same guarantee from copying into a fresh `HashMap`.
- `allowRequest` is split into two functions. `AllowRequest` does the null checks, and `Admit` holds the leak-then-fill step. `Replay` feeds each response's snapshot into the next call, as the tests do. It is used only to state properties of request histories.

Drain-to-admit depends on the capacity. A request made `level / leakRate` time units or more after the last observation is admitted only when `capacity >= 1`; the test at leaky-bucket-rate-limiter/src/test/java/com/leakybucket/LeakyBucketRateLimiterServiceTest.java:176-187 uses capacity 5. With `0 < capacity < 1`, the fill check at leaky-bucket-rate-limiter/src/main/java/com/leakybucket/model/BucketInfoCO.java:48 rejects every request, even on an empty bucket. `LimiterService.DrainedBucketAdmits` therefore requires `1 <= capacity`, and `LimiterService.NothingFitsBelowOneUnit` proves that a smaller capacity rejects everything.

## Model

| member | source | states |
|---|---|---|
| Buckets.NewBucket | leaky-bucket-rate-limiter/src/main/java/com/leakybucket/model/BucketInfoCO.java:16-19 | a constructed bucket keeps a non-negative level as given, turns a negative level into 0, and keeps the timestamp |
| Buckets.Leak | leaky-bucket-rate-limiter/src/main/java/com/leakybucket/model/BucketInfoCO.java:28-39 | the result is observed at the new timestamp; backwards time keeps the level; forward time drains by elapsed × rate, reaching exactly 0 when the drain covers the level; with a non-negative rate the level never rises |
| Buckets.AddRequest | leaky-bucket-rate-limiter/src/main/java/com/leakybucket/model/BucketInfoCO.java:47-52 | overflow (None) exactly when level + 1 > capacity; otherwise level + 1, which is within capacity, with the timestamp unchanged |
| Buckets.LeakDrainsToZero | leaky-bucket-rate-limiter/src/main/java/com/leakybucket/model/BucketInfoCO.java:34-38 | with a positive rate, observing at lastUpdate + level / rate or later gives level exactly 0 |
| Buckets.LeakComposes | leaky-bucket-rate-limiter/src/main/java/com/leakybucket/model/BucketInfoCO.java:34-38 | leaking forward to t1 and then to t2 equals leaking straight to t2 |
| Buckets.LeakMonotoneInTime | leaky-bucket-rate-limiter/src/main/java/com/leakybucket/model/BucketInfoCO.java:28-38 | with a non-negative rate, a later observation never shows a higher level, including when the earlier one is before the last update |
| Buckets.LeakAtLastUpdateIsIdentity | leaky-bucket-rate-limiter/src/main/java/com/leakybucket/model/BucketInfoCO.java:28-38 | leaking to the bucket's own last-update time returns the bucket unchanged |
| Limiters.NewRateLimiter | leaky-bucket-rate-limiter/src/main/java/com/leakybucket/model/RateLimiterCO.java:26-37 | succeeds exactly when capacity and leak rate are positive; otherwise fails with "Capacity must be positive" (checked first) or "Leak rate must be positive"; on success it holds the given configuration and map |
| Limiters.Create | leaky-bucket-rate-limiter/src/main/java/com/leakybucket/model/RateLimiterCO.java:22-24 | succeeds exactly when both parameters are positive, and then tracks no identity |
| Limiters.GetBucketState | leaky-bucket-rate-limiter/src/main/java/com/leakybucket/model/RateLimiterCO.java:45-47 | returns the stored bucket exactly when the identity is present, and None otherwise |
| Limiters.WithUpdatedBucket | leaky-bucket-rate-limiter/src/main/java/com/leakybucket/model/RateLimiterCO.java:56-66 | in the new snapshot a lookup of the identity gives the supplied bucket (None removes it); every other identity's lookup and the capacity and leak rate are unchanged |
| Limiters.GetLeakedBucketInfo | leaky-bucket-rate-limiter/src/main/java/com/leakybucket/model/RateLimiterCO.java:75-84 | an unknown identity gets level 0 observed at the timestamp; a known one gets its stored bucket leaked at the snapshot's rate, never above the stored level |
| Limiters.UpdateThenRemoveRestores | leaky-bucket-rate-limiter/src/main/java/com/leakybucket/model/RateLimiterCO.java:56-66 | storing a bucket for an absent identity and then removing it gives back the original snapshot |
| Limiters.WriteBackIsIdentity | leaky-bucket-rate-limiter/src/main/java/com/leakybucket/model/RateLimiterCO.java:56-66 | writing back what the lookup returned leaves the snapshot equal to itself |
| Limiters.LastUpdateWins | leaky-bucket-rate-limiter/src/main/java/com/leakybucket/model/RateLimiterCO.java:56-66 | two updates of one identity equal the second update alone |
| LimiterService.CreateRateLimiter | leaky-bucket-rate-limiter/src/main/java/com/leakybucket/service/LeakyBucketRateLimiterService.java:22-24 | invalid-argument errors for non-positive capacity or leak rate; otherwise a limiter with that configuration whose lookup is not-found for every identity |
| LimiterService.Admit | leaky-bucket-rate-limiter/src/main/java/com/leakybucket/service/LeakyBucketRateLimiterService.java:43-58 | admitted exactly when the leaked level + 1 fits the capacity; the stored bucket is the leaked level (+1 when admitted) observed at the request timestamp; other identities, capacity and leak rate are unchanged |
| LimiterService.AllowRequest | leaky-bucket-rate-limiter/src/main/java/com/leakybucket/service/LeakyBucketRateLimiterService.java:35-59 | a missing limiter gives "Rate limiter cannot be null" (checked first), a missing identity gives "User ID cannot be null", whatever the timestamp; otherwise it performs the admission step |
| LimiterService.GetBucketState | leaky-bucket-rate-limiter/src/main/java/com/leakybucket/service/LeakyBucketRateLimiterService.java:69-78 | the same null-check errors; otherwise the stored bucket verbatim, or not-found exactly when the identity was never observed |
| LimiterService.GetBucketStateAtTime | leaky-bucket-rate-limiter/src/main/java/com/leakybucket/service/LeakyBucketRateLimiterService.java:90-99 | the same null-check errors; otherwise a bucket observed at the timestamp: level 0 for an unknown identity, the stored bucket leaked otherwise |
| LimiterService.AdmitPreservesCapacity | leaky-bucket-rate-limiter/src/main/java/com/leakybucket/service/LeakyBucketRateLimiterService.java:44-57 | if every stored level lies in [0, capacity] before an admission, the same holds after it |
| LimiterService.ProjectionPredictsAdmission | leaky-bucket-rate-limiter/src/main/java/com/leakybucket/service/LeakyBucketRateLimiterService.java:44-49 | a request is admitted exactly when getBucketStateAtTime at the same timestamp shows room for one more unit |
| LimiterService.RejectionIsIdempotent | leaky-bucket-rate-limiter/src/main/java/com/leakybucket/service/LeakyBucketRateLimiterService.java:49-53 | repeating a rejected request at the same timestamp is rejected again and yields the same snapshot |
| LimiterService.FullBucketStaysFull | leaky-bucket-rate-limiter/src/test/java/com/leakybucket/LeakyBucketRateLimiterServiceTest.java:306-311 | a bucket at or above capacity asked at or before its last observation is rejected and keeps its level, observed at the new timestamp |
| LimiterService.BackwardsTimeFreezesLevel | leaky-bucket-rate-limiter/src/main/java/com/leakybucket/model/BucketInfoCO.java:29-32 | a request timestamped before the last observation sees the stored level undrained, is admitted exactly when that level + 1 fits, and moves the timestamp back |
| LimiterService.NewIdentityAdmitted | leaky-bucket-rate-limiter/src/main/java/com/leakybucket/model/RateLimiterCO.java:78-81 | a first request from a new identity is admitted with level 1 at its own timestamp when the capacity is at least 1 |
| LimiterService.DrainedBucketAdmits | leaky-bucket-rate-limiter/src/test/java/com/leakybucket/LeakyBucketRateLimiterServiceTest.java:176-187 | with capacity at least 1, a request at lastUpdate + level / rate or later is admitted and leaves level exactly 1 |
| LimiterService.NothingFitsBelowOneUnit | leaky-bucket-rate-limiter/src/main/java/com/leakybucket/model/BucketInfoCO.java:48-49 | with a capacity below 1 no request is ever admitted |
| LimiterService.Replay | leaky-bucket-rate-limiter/src/test/java/com/leakybucket/LeakyBucketRateLimiterServiceTest.java:76-80 | feeding each response's snapshot into the next call never changes the capacity or leak rate |
| LimiterService.ReplayPreservesCapacity | leaky-bucket-rate-limiter/src/main/java/com/leakybucket/service/LeakyBucketRateLimiterService.java:44-57 | over any request history, with timestamps in any order, every stored level stays in [0, capacity] |
| LimiterService.ReplayIsolatesIdentities | leaky-bucket-rate-limiter/src/test/java/com/leakybucket/LeakyBucketRateLimiterServiceTest.java:337-359 | requests by other identities never change an identity's stored bucket |
| Scenarios.BurstFillsThenRejects | leaky-bucket-rate-limiter/src/test/java/com/leakybucket/LeakyBucketRateLimiterServiceTest.java:69-89 | capacity 5, rate 1: five requests at t=0 are admitted with levels 1, 2, 3, 4, 5; the sixth is rejected and the level stays 5 at t=0 |
| Scenarios.IdleGapDrainsFully | leaky-bucket-rate-limiter/src/test/java/com/leakybucket/LeakyBucketRateLimiterServiceTest.java:109-125 | three requests at t=0, then one at t=5, is admitted with level 1 |
| Scenarios.FractionalLeak | leaky-bucket-rate-limiter/src/test/java/com/leakybucket/LeakyBucketRateLimiterServiceTest.java:233-249 | capacity 5, rate 0.5: two requests at t=0, then one at t=1.5, gives level exactly 2.25 |
| Scenarios.BackwardsTimeStillAdmits | leaky-bucket-rate-limiter/src/test/java/com/leakybucket/LeakyBucketRateLimiterServiceTest.java:158-172 | a request at t=5 and then one at t=3 are both admitted, ending at level 2 with timestamp 3 |
| Scenarios.ProjectionLeavesSnapshotAlone | leaky-bucket-rate-limiter/src/test/java/com/leakybucket/LeakyBucketRateLimiterServiceTest.java:251-272 | the projection at t=2 shows level 1, while the snapshot still holds level 3 at t=0 |
| Scenarios.IdentitiesAreIndependent | leaky-bucket-rate-limiter/src/test/java/com/leakybucket/LeakyBucketRateLimiterServiceTest.java:335-360 | capacity 2: user1 fills and is rejected, user2 is still admitted; user1 holds 2 and user2 holds 1 |
| Scenarios.InvalidInputsAreRejected | leaky-bucket-rate-limiter/src/test/java/com/leakybucket/LeakyBucketRateLimiterServiceTest.java:40-51 | non-positive capacities or leak rates, and missing limiters or identities, all give errors |

## Left out

- IEEE-754 rounding of `double`: every quantity is an exact real. The source's tests compare with a 0.001 tolerance, so exact arithmetic is the intended behaviour.
- `-0.0` and NaN: `Math.max(0.0, x)` has special cases for them that reals do not have.
- The `toString` methods: they only format text for presentation.
- Lombok's generated getters and `equals`/`hashCode`: datatype fields and datatype equality play their role.
- `Collections.unmodifiableMap` and the `HashMap` copies: an immutable Dafny `map` already has value semantics.
- `RateLimiterResponse`'s non-null check on the new state: the `RateLimiterResponse` datatype cannot hold a missing snapshot.
- Lost updates when several callers share one mutable "current limiter" variable: coordinating them is the caller's responsibility, and the core has no shared state.
- A null `userId` passed straight to `RateLimiterCO`: the Java `HashMap` accepts a null key, but the identity functions of `Limiters` take a present `UserId`. The service rejects a null identity first (leaky-bucket-rate-limiter/src/main/java/com/leakybucket/service/LeakyBucketRateLimiterService.java:39-41, 73-75, 94-96), so admission never reaches that case.
- A NaN capacity or leak rate: it passes the `<= 0` checks at leaky-bucket-rate-limiter/src/main/java/com/leakybucket/model/RateLimiterCO.java:27 and 30, but reals have no NaN.
