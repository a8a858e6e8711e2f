/**
 * The throughput monitor: one counter per epoch second in the shared store,
 * each with a time-to-live, and a reading that reports the count of the
 * last completed second. The wall clock is the parameter `now` (epoch
 * seconds); expiry is logical time: a bucket written with deadline `e` is
 * visible at every `now <= e` and is gone afterwards, both for reads and
 * for the next increment.
 */
module Throughput {

  /** Seconds a bucket stays in the store after its last increment. */
  const TtlSeconds := 10

  /** The store's throughput keys: count and expiry deadline per second. */
  datatype Buckets = Buckets(counts: map<int, nat>, expiry: map<int, int>)

  /** Bucket `k` exists at time `now`: it was written and has not expired. */
  predicate Live(b: Buckets, k: int, now: int)
  {
    k in b.counts && (k in b.expiry ==> now <= b.expiry[k])
  }

  /** The value the store returns for bucket `k` at time `now`; an absent or
      expired bucket reads as 0. */
  function Count(b: Buckets, k: int, now: int): nat
  {
    if Live(b, k, now) then b.counts[k] else 0
  }

  /** The store after one increment at time `now`. Bucket `now` goes up by
      exactly one (from 0 if it was absent or expired) and is kept for
      `TtlSeconds`; every other bucket keeps its count and its deadline. */
  function Incremented(b: Buckets, now: int): (r: Buckets)
    ensures Count(r, now, now) == Count(b, now, now) + 1
    ensures forall t :: now <= t <= now + TtlSeconds ==> Count(r, now, t) == Count(b, now, now) + 1
    ensures forall t :: t > now + TtlSeconds ==> Count(r, now, t) == 0
    ensures forall k, t :: k != now ==> Count(r, k, t) == Count(b, k, t)
  {
    Buckets(b.counts[now := Count(b, now, now) + 1], b.expiry[now := now + TtlSeconds])
  }

  /** The store after one increment at each of the given instants, in order. */
  function Replay(b: Buckets, times: seq<int>): Buckets
    decreases |times|
  {
    if times == [] then b else Replay(Incremented(b, times[0]), times[1..])
  }

  /** `n` events in second `s`, read one second later, report the count the
      bucket held when the second began plus `n`. */
  lemma {:induction false} IncrementsThenRead(b: Buckets, s: int, n: nat)
    requires n > 0
    ensures Count(Replay(b, seq(n, _ => s)), s, s + 1) == Count(b, s, s) + n
    decreases n
  {
    var b1 := Incremented(b, s);
    assert seq(n, _ => s)[1..] == seq(n - 1, _ => s);
    if n > 1 {
      IncrementsThenRead(b1, s, n - 1);
    }
  }

  /** Increments at second `s` leave every other bucket as it was. */
  lemma {:induction false} IncrementsLeaveOtherBuckets(b: Buckets, s: int, n: nat, k: int, t: int)
    requires k != s
    ensures Count(Replay(b, seq(n, _ => s)), k, t) == Count(b, k, t)
    decreases n
  {
    if n > 0 {
      assert seq(n, _ => s)[1..] == seq(n - 1, _ => s);
      IncrementsLeaveOtherBuckets(Incremented(b, s), s, n - 1, k, t);
    }
  }

  /** Exactly `n` events in a second that had none, read after that second
      has ended, report `n`; read during that same second, the reading is the
      previous second's count, untouched by the new events. */
  lemma EventsInOneSecond(b: Buckets, s: int, n: nat)
    requires !Live(b, s, s)
    ensures Count(Replay(b, seq(n, _ => s)), s, s + 1) == n
    ensures Count(Replay(b, seq(n, _ => s)), s - 1, s) == Count(b, s - 1, s)
  {
    if n > 0 {
      IncrementsThenRead(b, s, n);
    }
    IncrementsLeaveOtherBuckets(b, s, n, s - 1, s);
  }

  class ThroughputMonitor {
    var counts: map<int, nat>
    var expiry: map<int, int>

    function Snapshot(): Buckets
      reads this
    {
      Buckets(counts, expiry)
    }

    constructor (initial: Buckets)
      ensures Snapshot() == initial
    {
      counts := initial.counts;
      expiry := initial.expiry;
    }

    /** Record one event at second `now`: increment the bucket, then set
        its time-to-live. */
    method Increment(now: int)
      modifies this
      ensures Snapshot() == Incremented(old(Snapshot()), now)
    {
      var current := if now in counts && (now in expiry ==> now <= expiry[now]) then counts[now] else 0;
      counts := counts[now := current + 1];
      expiry := expiry[now := now + TtlSeconds];
    }

    /** The rate of the last completed second: the count of bucket
        `now - 1`, or 0 when that bucket is absent or expired. */
    method GetCurrentThroughput(now: int) returns (r: nat)
      ensures r == Count(Snapshot(), now - 1, now)
      ensures r > 0 ==> now - 1 in counts && r == counts[now - 1]
      ensures now - 1 !in counts ==> r == 0
    {
      var lastSecond := now - 1;
      if lastSecond in counts {
        if lastSecond !in expiry || now <= expiry[lastSecond] {
          return counts[lastSecond];
        }
      }
      return 0;
    }
  }

  /** The reading at `now` never looks at bucket `now`: two stores that
      differ only there give the same reading. */
  lemma ReadingIgnoresCurrentSecond(b: Buckets, now: int, c: nat, e: int)
    ensures Count(Buckets(b.counts[now := c], b.expiry[now := e]), now - 1, now) == Count(b, now - 1, now)
  {
  }
}
