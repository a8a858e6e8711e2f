/**
 * The scaling service: reads the monitor's current throughput and the
 * registry's listing, and applies the decision rule.
 */
module Scaling {
  import opened ScalingRule
  import opened Throughput
  import opened Workers

  class ScalingService {
    const workerService: WorkerService
    const throughputMonitor: ThroughputMonitor
    const config: Config

    constructor (workerService: WorkerService, throughputMonitor: ThroughputMonitor, config: Config)
      ensures this.workerService == workerService
      ensures this.throughputMonitor == throughputMonitor
      ensures this.config == config
    {
      this.workerService := workerService;
      this.throughputMonitor := throughputMonitor;
      this.config := config;
    }

    /** The recommendation for the throughput of the last completed second
        and the number of workers the registry lists. In a consistent
        registry that number is the size of the index. */
    method GetScalingRecommendation(now: int) returns (r: Recommendation)
      ensures r == Decide(Count(throughputMonitor.Snapshot(), now - 1, now), |Resolvable(workerService.Snapshot())|, config)
      ensures workerService.Valid() ==> r.activeWorkers == |workerService.index|
    {
      var currentThroughput := throughputMonitor.GetCurrentThroughput(now);
      var workers;
      ghost var members;
      workers, members := workerService.GetAllWorkers();
      r := Decide(currentThroughput, |workers|, config);
      if workerService.Valid() {
        ConsistentListing(workerService.Snapshot());
      }
    }
  }

  /** The two copies of the rule agree: over the same monitor and registry,
      with the same settings, both services give the same recommendation. */
  method BothCallSitesAgree(scaling: ScalingService, now: int) returns (a: Recommendation, b: Recommendation)
    requires scaling.workerService.throughputMonitor == scaling.throughputMonitor
    requires scaling.workerService.config == scaling.config
    ensures a == b
  {
    a := scaling.GetScalingRecommendation(now);
    b := scaling.workerService.GetScalingRecommendation(now);
  }
}
