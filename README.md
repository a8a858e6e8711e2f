# Worker autoscaling core, modelled in Dafny

The system counts sensor-ingestion events per second, keeps a registry of
the stateless workers that consume them, and recommends how many workers
should run. This project models the three parts with real logic:

- **Throughput monitor** (`throughput_monitor.dfy`, module `Throughput`). The
  class `ThroughputMonitor` holds the store's per-second counters
  (`counts`) and their expiry deadlines (`expiry`). `Increment(now)` bumps
  bucket `now` and sets its time-to-live to 10 seconds.
  `GetCurrentThroughput(now)` reads bucket `now - 1`, and reads 0 when that
  bucket is absent or expired. The pure value `Buckets` and the function
  `Incremented` specify the class, and the lemmas about event counts are
  stated over them.
- **Worker registry** (`worker_service.dfy`, module `Workers`). The class
  `WorkerService` holds the record map (`"worker:" + id` → `Worker`) and the
  membership index (a set of ids). Register, deregister and heartbeat are
  methods that update both. Each service call is two store calls, and the
  pure functions `RecordWritten`, `RecordDeleted`, `IndexAdded` and
  `IndexRemoved` give the store after each one. This makes the state between
  the two calls available to the lemmas. `GetAllWorkers` reads the index in
  whatever order the store returns it, batch-fetches the records and drops
  ids whose record is missing. The batch fetch is `MultiGet`, a model of
  the store's batch read that returns one optional record per key. The invariant `Consistent` says two things:
  the index holds exactly the ids that have records, and every record sits
  under its own worker's key. Every complete operation preserves it.
- **Autoscaling decision** (`scaling_rule.dfy`, module `ScalingRule`). The
  service code contains this rule twice. `Decide` is the one pure version.
  It applies four rules in priority order (below minimum, over capacity,
  under the lower threshold of 1000 events/s per worker, hold), then the
  post-check that forces HOLD when the count does not change. The
  `ceil(x / (double) capacity)` in the code is integer ceiling division
  (`CeilDiv`). `JavaDecide` models the code's 32-bit `int` arithmetic, which
  can overflow (see Findings).
- **Scaling service** (`scaling_service.dfy`, module `Scaling`). The class
  `ScalingService` reads the monitor and the registry and applies `Decide`.
  The registry's own `GetScalingRecommendation` is proved to compute the
  same `Decide`.

The wall clock is the parameter `now`, in epoch seconds. A bucket whose
deadline is `e` is visible at every `now <= e`. After that it is absent,
both for reads and for the next increment, which then starts again from 1.

Three facts about the code that a reader might not expect:

- Deregistration deletes the record first and removes the id from the
  index second (WorkerService.java:57-58). Between the two calls the id
  dangles. `DeregisterMidStateListing` proves that a listing skips that id.
- The recommended count is guaranteed to lie in `[minWorkers, maxWorkers]`
  when `minWorkers <= maxWorkers` and the current fleet is no larger than
  the maximum (`RecommendationInRange`). Above the maximum the fleet is
  never scaled up and shrinks by at most one worker per evaluation
  (`AboveMaximumShrinksByAtMostOne`): it is held when the throughput
  reaches 1000 events/s per worker, and otherwise loses one worker.
- The post-check (ScalingService.java:56-58) never changes the outcome. The
  only branch that keeps the count unchanged is HOLD itself, because
  scale-down always removes exactly one worker (`PostCheckNeverFires`).

## Model

| member | source | states |
|---|---|---|
| `ScalingRule.CeilDiv` | src/main/java/org/example/service/ScalingService.java:48 | the result is the least q with x <= q * capacity, i.e. the ceiling of the quotient |
| `ScalingRule.CeilDivBounds` | src/main/java/org/example/service/ScalingService.java:48 | a positive excess needs at least one and at most that many extra workers |
| `ScalingRule.CeilDivMonotone` | src/main/java/org/example/service/ScalingService.java:48 | a larger excess never needs fewer extra workers |
| `ScalingRule.Decide` | src/main/java/org/example/service/ScalingService.java:30-61 | the recommendation echoes throughput and worker count; SCALE_UP always raises the count, SCALE_DOWN lowers it by exactly one and only above the minimum, HOLD keeps it |
| `ScalingRule.DecisionRules` | src/main/java/org/example/service/ScalingService.java:42-58 | below the minimum: SCALE_UP to the minimum; over capacity below the maximum: SCALE_UP to min(max, active + ceil(excess / capacity)); SCALE_DOWN and HOLD each exactly when their guard is the first to hold |
| `ScalingRule.OverCapacityTarget` | src/main/java/org/example/service/ScalingService.java:46-49 | over capacity: active < recommended <= max, and unless capped by max the recommended fleet is the smallest whose capacity covers the throughput |
| `ScalingRule.ScaleDownSingleStep` | src/main/java/org/example/service/ScalingService.java:50-53 | a scale-down recommends exactly one worker fewer, never below the minimum, and only below 1000 events/s per worker |
| `ScalingRule.RecommendationInRange` | src/main/java/org/example/service/ScalingService.java:42-53 | with min <= max and active <= max the recommendation lies in [min, max] |
| `ScalingRule.AboveMaximumShrinksByAtMostOne` | src/main/java/org/example/service/ScalingService.java:42-53 | with min <= max < active the action is HOLD or SCALE_DOWN to active - 1, and HOLD exactly when the throughput is at least 1000 events/s per worker |
| `ScalingRule.AboveMaximumIsHeld` | src/main/java/org/example/service/ScalingService.java:35-53 | a fleet of 12 under a maximum of 10 is held at 12 at 100000 events/s and cut to 11 at 0 events/s: both stay above the maximum |
| `ScalingRule.NoScaleUpAtMaximum` | src/main/java/org/example/service/ScalingService.java:46 | at or above the maximum (with min <= max) no throughput yields SCALE_UP |
| `ScalingRule.PostCheckNeverFires` | src/main/java/org/example/service/ScalingService.java:56-58 | an unchanged count with a non-SCALE_UP action is HOLD, and the action is HOLD exactly when the reason is "within range": the post-check never overrides a branch |
| `ScalingRule.MonotoneInThroughput` | src/main/java/org/example/service/ScalingService.java:42-53 | more throughput never recommends fewer workers |
| `ScalingRule.DefaultConfigScenarios` | src/main/java/org/example/service/ScalingService.java:16-23 | with min 1, max 10, capacity 1500: 0 workers scale up to 1; 3 workers at 5000/2000/4000 events/s give SCALE_UP to 4, SCALE_DOWN to 2 and HOLD at 3; 10 workers at 999999 hold at 10 |
| `ScalingRule.WrapInt` | src/main/java/org/example/service/ScalingService.java:48 | Java `int` addition: the result is in the 32-bit range and congruent to the sum modulo 2^32 |
| `ScalingRule.NarrowToInt` | src/main/java/org/example/service/ScalingService.java:48 | Java's `(int)` of a double saturates at the 32-bit bounds: above the range it gives 2^31 - 1, below it -2^31 |
| `ScalingRule.JavaDecide` | src/main/java/org/example/service/ScalingService.java:30-61 | the rule with the code's 32-bit arithmetic echoes its inputs |
| `ScalingRule.OverflowCounterexample` | src/main/java/org/example/service/ScalingService.java:48 | 1 worker at 3221225473500 events/s under the defaults: the code says SCALE_UP to -2147483648 workers, the intended rule says 10 |
| `ScalingRule.JavaDecideAgrees` | src/main/java/org/example/service/ScalingService.java:48 | when the throughput is at most (2^31 - 1) times the per-worker capacity, the code's arithmetic gives exactly `Decide` |
| `ScalingRule.JavaDecideBoundIsTight` | src/main/java/org/example/service/ScalingService.java:48 | at the defaults, one event per second above that bound the code's recommendation already differs from `Decide` |
| `Throughput.Incremented` | src/main/java/org/example/service/ThroughputMonitor.java:19-24 | an increment adds exactly 1 to bucket `now` (from 0 if absent or expired); the bucket reads that value up to 10 s later and 0 afterwards; every other bucket reads as before |
| `Throughput.IncrementsThenRead` | src/main/java/org/example/service/ThroughputMonitor.java:19-41 | n > 0 increments in second s, read at s + 1, give the bucket's earlier count plus n |
| `Throughput.IncrementsLeaveOtherBuckets` | src/main/java/org/example/service/ThroughputMonitor.java:19-24 | increments in second s leave every other bucket's reading unchanged at every time |
| `Throughput.EventsInOneSecond` | src/main/java/org/example/service/ThroughputMonitor.java:19-41 | exactly n events in an empty second read as n one second later; read within that second, the result is the previous second's count |
| `Throughput.ReadingIgnoresCurrentSecond` | src/main/java/org/example/service/ThroughputMonitor.java:30-31 | the reading at `now` does not depend on bucket `now` |
| `Throughput.ThroughputMonitor.Increment` | src/main/java/org/example/service/ThroughputMonitor.java:19-24 | the store after the call is `Incremented` of the store before |
| `Throughput.ThroughputMonitor.GetCurrentThroughput` | src/main/java/org/example/service/ThroughputMonitor.java:26-41 | changes nothing; returns bucket `now - 1`'s count when it is live, 0 when it is absent or expired; never negative |
| `Workers.Key` | src/main/java/org/example/service/WorkerService.java:48 | the record key is "worker:" followed by the id: its prefix is "worker:" and the id can be read back from the rest |
| `Workers.StatusOf` | src/main/java/org/example/model/Worker.java:18 | each stored status string maps to one status that reads back as that string; "registered" and "active" are never `Custom`, so status equality is string equality |
| `Workers.KeyInjective` | src/main/java/org/example/service/WorkerService.java:48 | different ids have different record keys |
| `Workers.ConsistentLookup` | src/main/java/org/example/service/WorkerService.java:45-76 | in a consistent registry the record under an id's key has that workerId and no index entry dangles |
| `Workers.IndexSplits` | src/main/java/org/example/service/WorkerService.java:78-99 | each indexed id either has a record or dangles, so the two counts add up to the index size |
| `Workers.AfterRegister` | src/main/java/org/example/service/WorkerService.java:45-53 | registration sets the record at the worker's key to the worker and adds its id to the index; nothing else changes |
| `Workers.AfterDeregister` | src/main/java/org/example/service/WorkerService.java:55-59 | deregistration removes the record at the id's key and the id from the index; nothing else changes |
| `Workers.Heartbeat` | src/main/java/org/example/service/WorkerService.java:66-72 | the rewritten record keeps workerId and registeredAt and has status active, the new heartbeat instant and the reported count |
| `Workers.AfterHealthUpdate` | src/main/java/org/example/service/WorkerService.java:61-76 | for an id without a record: no result and the store unchanged |
| `Workers.RegisterKeepsConsistent` | src/main/java/org/example/service/WorkerService.java:45-53 | registration preserves the index/record invariant |
| `Workers.DeregisterKeepsConsistent` | src/main/java/org/example/service/WorkerService.java:55-59 | deregistration preserves the index/record invariant |
| `Workers.HealthUpdateKeepsConsistent` | src/main/java/org/example/service/WorkerService.java:61-76 | a heartbeat preserves the index/record invariant |
| `Workers.RegisterTwiceOverwrites` | src/main/java/org/example/service/WorkerService.java:48-50 | registering the same id twice equals registering the second record once; that record is the only one of the worker and its id is indexed |
| `Workers.DeregisterUnknownIsNoop` | src/main/java/org/example/service/WorkerService.java:55-59 | deregistering an id that is not indexed leaves a consistent store unchanged |
| `Workers.RegisterThenDeregisterExcludes` | src/main/java/org/example/service/WorkerService.java:45-59 | after register(w) then deregister(w.workerId), no listable record has w's id |
| `Workers.RegisterMidStateHasNoDangling` | src/main/java/org/example/service/WorkerService.java:49-50 | between the record write and the index add, no index entry dangles |
| `Workers.DeregisterMidStateListing` | src/main/java/org/example/service/WorkerService.java:57-58 | between the record delete and the index removal only the deregistered id can dangle, and the listable records are those of the completed deregistration |
| `Workers.AllWorkersAppend` | src/main/java/org/example/service/WorkerService.java:84-98 | appending one index member appends its record if it has one, and nothing otherwise |
| `Workers.AllWorkersMembers` | src/main/java/org/example/service/WorkerService.java:84-98 | a worker is in the listing exactly when it is the record of one of the members |
| `Workers.AllWorkersCount` | src/main/java/org/example/service/WorkerService.java:84-98 | over distinct members, the listing's length plus the number of members without a record equals the number of members |
| `Workers.DistinctSize` | src/main/java/org/example/service/WorkerService.java:79 | a repeat-free sequence of a set's members is as long as the set |
| `Workers.ConsistentListing` | src/main/java/org/example/service/WorkerService.java:78-99 | in a consistent registry every indexed id resolves, and each listed record is its worker's indexed record |
| `Workers.WorkerService.RegisterWorker` | src/main/java/org/example/service/WorkerService.java:45-53 | returns the worker unchanged; the new store is `AfterRegister` of the old; the invariant is kept |
| `Workers.WorkerService.DeregisterWorker` | src/main/java/org/example/service/WorkerService.java:55-59 | the new store is `AfterDeregister` of the old; the invariant is kept; an unknown id leaves the store unchanged |
| `Workers.WorkerService.UpdateHealth` | src/main/java/org/example/service/WorkerService.java:61-76 | unknown id: returns none and changes nothing; known id: returns the `Heartbeat` record and writes it under the same key, index unchanged; the invariant is kept |
| `Workers.WorkerService.GetAllWorkers` | src/main/java/org/example/service/WorkerService.java:78-99 | changes nothing; empty index gives an empty list; otherwise returns exactly the records of indexed ids that have one, one per such id, dropping dangling ids |
| `Workers.WorkerService.GetScalingRecommendation` | src/main/java/org/example/service/WorkerService.java:101-132 | returns `Decide` of the monitor's reading and the number of indexed ids with a record, which is the index size in a consistent registry |
| `Scaling.ScalingService.GetScalingRecommendation` | src/main/java/org/example/service/ScalingService.java:30-61 | returns `Decide` of the monitor's reading and the listing size, which is the index size in a consistent registry |
| `Scaling.BothCallSitesAgree` | src/main/java/org/example/service/WorkerService.java:101-132 | with a shared monitor and the same settings, the registry's copy of the rule and the scaling service return the same recommendation |

## Left out

- The HTTP controllers, the exception handler, the sensor time-series service and the metrics wrapper are not part of this model.
- Conversion of stored objects into `Worker` values (`convertToWorker`, WorkerService.java:134-145) is not modelled. Stored values are already typed, so a record that fails to convert is treated as a record that exists. The `Integer`/`Long` type test on a throughput bucket (ThroughputMonitor.java:34-38) is left out for the same reason.
- Store failures and the exceptions they raise are not modelled. Every store call succeeds.
- Concurrency is not modelled: there is no interleaving of two operations, and no race between a heartbeat and a deregistration. The state between the two store calls of register and deregister is exposed only as a pure intermediate state.
- The clock is a parameter, and instants are whole epoch seconds. Redis's real-time key expiry is a logical deadline compared with that parameter.
- The order in which the store returns the index members is not modelled: `GetAllWorkers` accepts any order.
- Null worker ids, null status and null instants are not modelled. The client-supplied status string becomes `Registered`, `Active` or `Custom(name)`.
- Counters, processed counts and throughput are unbounded integers, so 64-bit overflow of a Redis counter or of a Java `long` is not modelled.
- `ScalingRule.Decide`: requires a positive worker capacity, through the type `Config`. The floating-point division by a zero or negative capacity at ScalingService.java:48 is not modelled. The floating-point quotient is modelled as exact integer ceiling division, which agrees with the code whenever the excess throughput is below 2^53.
- `Scaling.ScalingService.GetScalingRecommendation`: uses the overflow-free `Decide`. The code wraps around once the throughput exceeds (2^31 - 1) times the per-worker capacity, about 3.2 × 10^12 events/s at the defaults (see Findings). `JavaDecideAgrees` shows the two agree up to that bound, and `JavaDecideBoundIsTight` shows they differ just above it.
- `Workers.WorkerService.GetScalingRecommendation`: uses the overflow-free `Decide`, for the same reason.
- The reason strings are a fixed set of causes (`Reason`). Their wording is not modelled. The over-capacity reason keeps the capacity that its message quotes.

## Findings

| source | as written | input that shows it | evidently intended | confidence | as-written member | corrected member |
|---|---|---|---|---|---|---|
| src/main/java/org/example/service/ScalingService.java:48 (also WorkerService.java:119) | `activeWorkers + (int) Math.ceil(excess / (double) workerCapacity)`: the cast saturates at 2147483647, and the `int` addition then wraps to a negative number | defaults (min 1, max 10, capacity 1500), 1 active worker, throughput 3221225473500 events/s: SCALE_UP with recommendedWorkers = -2147483648 | SCALE_UP to min(max, active + ceil(excess / capacity)) = 10, always above the current count | not executed; the input is a per-second count far above realistic traffic, but the field is a `long` | `ScalingRule.OverflowCounterexample` (over `ScalingRule.JavaDecide`) | `ScalingRule.Decide` (with `ScalingRule.OverCapacityTarget`) |
