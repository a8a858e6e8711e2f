/**
 * The worker registry. The shared store holds one record per worker under
 * the key "worker:" + id and a membership index, the set of registered ids.
 * Each registry operation is two store calls; the pure functions below give
 * the store after each call, so that the state between the two calls can
 * be reasoned about as well as the state after the operation.
 */
module Workers {
  import opened ScalingRule
  import opened Throughput

  datatype Option<T> = None | Some(value: T)

  /** A worker's status. The code stores it as a string: "registered" is
      `Registered`, "active" is `Active`, and any other string is
      `Custom`, which never holds either of those two names (`StatusOf`).
      The client may report any string at registration; a heartbeat always
      sets `Active`. */
  datatype Status = Registered | Active | Custom(name: string)

  /** The string the code stores for a status. */
  function StatusName(s: Status): string
  {
    match s
    case Registered => "registered"
    case Active => "active"
    case Custom(name) => name
  }

  /** The status for a stored string: each string has exactly one status,
      so two records have equal statuses exactly when the code's strings
      are equal. */
  function StatusOf(name: string): (s: Status)
    ensures StatusName(s) == name
    ensures s.Custom? ==> name != "registered" && name != "active"
  {
    if name == "registered" then Registered
    else if name == "active" then Active
    else Custom(name)
  }

  /** A worker record; the two instants are epoch seconds. */
  datatype Worker = Worker(
    workerId: string,
    status: Status,
    registeredAt: int,
    lastHeartbeat: int,
    processedCount: int)

  const WorkerKeyPrefix: string := "worker:"

  /** The store key of a worker's record. */
  function Key(id: string): (k: string)
    ensures |k| == |WorkerKeyPrefix| + |id|
    ensures k[..|WorkerKeyPrefix|] == WorkerKeyPrefix
    ensures k[|WorkerKeyPrefix|..] == id
  {
    WorkerKeyPrefix + id
  }

  /** Different ids never share a record key. */
  lemma KeyInjective(a: string, b: string)
    ensures Key(a) == Key(b) ==> a == b
  {
    if Key(a) == Key(b) {
      calc {
        a;
        == Key(a)[|WorkerKeyPrefix|..];
        == Key(b)[|WorkerKeyPrefix|..];
        == b;
      }
    }
  }

  /** The registry's part of the store: records by key, and the index. */
  datatype Store = Store(records: map<string, Worker>, index: set<string>)

  /** The registry invariant after every complete operation: an id is in the
      index exactly when its record exists, and every record sits under its
      own worker's key. */
  ghost predicate Consistent(s: Store)
  {
    && (forall id :: id in s.index <==> Key(id) in s.records)
    && (forall k :: k in s.records ==> k == Key(s.records[k].workerId))
  }

  /** Index entries whose record is missing. */
  ghost function Dangling(s: Store): set<string>
  {
    set id | id in s.index && Key(id) !in s.records
  }

  /** Index entries whose record exists. */
  ghost function Resolvable(s: Store): set<string>
  {
    set id | id in s.index && Key(id) in s.records
  }

  /** Every index entry either resolves or dangles. */
  lemma IndexSplits(s: Store)
    ensures |Resolvable(s)| + |Dangling(s)| == |s.index|
  {
    assert s.index == Resolvable(s) + Dangling(s);
    assert Resolvable(s) * Dangling(s) == {};
  }

  /** The workers a listing can return: the records of indexed ids. */
  ghost function Listed(s: Store): set<Worker>
  {
    set id | id in s.index && Key(id) in s.records :: s.records[Key(id)]
  }

  /** In a consistent store the record found under an id's key is that
      worker's own record, and no indexed id dangles. */
  lemma ConsistentLookup(s: Store, id: string)
    requires Consistent(s)
    ensures Key(id) in s.records ==> s.records[Key(id)].workerId == id
    ensures Dangling(s) == {}
  {
    if Key(id) in s.records {
      KeyInjective(id, s.records[Key(id)].workerId);
    }
  }

  // ---------------------------------------------------------------------
  // Single store calls

  function RecordWritten(s: Store, key: string, w: Worker): Store
  {
    Store(s.records[key := w], s.index)
  }

  function RecordDeleted(s: Store, key: string): Store
  {
    Store(s.records - {key}, s.index)
  }

  function IndexAdded(s: Store, id: string): Store
  {
    Store(s.records, s.index + {id})
  }

  function IndexRemoved(s: Store, id: string): Store
  {
    Store(s.records, s.index - {id})
  }

  // ---------------------------------------------------------------------
  // Complete operations

  /** Registration: write the record, then index the id. */
  function AfterRegister(s: Store, w: Worker): (r: Store)
    ensures r.records == s.records[Key(w.workerId) := w]
    ensures r.index == s.index + {w.workerId}
  {
    IndexAdded(RecordWritten(s, Key(w.workerId), w), w.workerId)
  }

  /** Deregistration: delete the record, then remove the id from the index. */
  function AfterDeregister(s: Store, id: string): (r: Store)
    ensures r.records == s.records - {Key(id)}
    ensures r.index == s.index - {id}
  {
    IndexRemoved(RecordDeleted(s, Key(id)), id)
  }

  /** The record a heartbeat writes back: new count, status active, new
      heartbeat instant; the id and the registration instant are kept. */
  function Heartbeat(w: Worker, processedCount: int, now: int): (r: Worker)
    ensures r.workerId == w.workerId && r.registeredAt == w.registeredAt
    ensures r.status == Active && r.lastHeartbeat == now && r.processedCount == processedCount
  {
    w.(lastHeartbeat := now, processedCount := processedCount, status := Active)
  }

  /** A heartbeat: nothing happens for an unknown worker; otherwise its
      record is rewritten in place. */
  function AfterHealthUpdate(s: Store, id: string, processedCount: int, now: int): (r: (Store, Option<Worker>))
    ensures Key(id) !in s.records ==> r == (s, None)
  {
    var key := Key(id);
    if key in s.records then
      var w := Heartbeat(s.records[key], processedCount, now);
      (RecordWritten(s, key, w), Some(w))
    else
      (s, None)
  }

  // ---------------------------------------------------------------------
  // The invariant is kept by every complete operation

  lemma RegisterKeepsConsistent(s: Store, w: Worker)
    requires Consistent(s)
    ensures Consistent(AfterRegister(s, w))
  {
    var r := AfterRegister(s, w);
    forall id
      ensures id in r.index <==> Key(id) in r.records
    {
      KeyInjective(id, w.workerId);
    }
  }

  lemma DeregisterKeepsConsistent(s: Store, id: string)
    requires Consistent(s)
    ensures Consistent(AfterDeregister(s, id))
  {
    var r := AfterDeregister(s, id);
    forall x
      ensures x in r.index <==> Key(x) in r.records
    {
      KeyInjective(x, id);
    }
  }

  lemma HealthUpdateKeepsConsistent(s: Store, id: string, processedCount: int, now: int)
    requires Consistent(s)
    ensures Consistent(AfterHealthUpdate(s, id, processedCount, now).0)
  {
  }

  // ---------------------------------------------------------------------
  // Properties of the operations

  /** Registering the same id twice leaves the second record, under the
      id's key, as the only record of that worker, with the id indexed. */
  lemma RegisterTwiceOverwrites(s: Store, w1: Worker, w2: Worker)
    requires Consistent(s)
    requires w1.workerId == w2.workerId
    ensures var r := AfterRegister(AfterRegister(s, w1), w2);
      && r == AfterRegister(s, w2)
      && Consistent(r)
      && w2.workerId in r.index
      && r.records[Key(w2.workerId)] == w2
      && (forall k :: k in r.records && r.records[k].workerId == w2.workerId ==> k == Key(w2.workerId))
  {
    RegisterKeepsConsistent(s, w2);
  }

  /** Deregistering an unknown id changes nothing. */
  lemma DeregisterUnknownIsNoop(s: Store, id: string)
    requires Consistent(s)
    requires id !in s.index
    ensures AfterDeregister(s, id) == s
  {
  }

  /** After a registration and a deregistration of the same worker, no
      listable record belongs to that worker. */
  lemma RegisterThenDeregisterExcludes(s: Store, w: Worker)
    requires Consistent(s)
    ensures forall v :: v in Listed(AfterDeregister(AfterRegister(s, w), w.workerId)) ==> v.workerId != w.workerId
  {
    var r := AfterDeregister(AfterRegister(s, w), w.workerId);
    RegisterKeepsConsistent(s, w);
    DeregisterKeepsConsistent(AfterRegister(s, w), w.workerId);
    forall v | v in Listed(r)
      ensures v.workerId != w.workerId
    {
      var id :| id in r.index && Key(id) in r.records && r.records[Key(id)] == v;
      ConsistentLookup(r, id);
    }
  }

  /** Between the two calls of a registration the record already exists, so
      a reader following the index meets no dangling id. */
  lemma RegisterMidStateHasNoDangling(s: Store, w: Worker)
    requires Consistent(s)
    ensures Dangling(RecordWritten(s, Key(w.workerId), w)) == {}
  {
    ConsistentLookup(s, w.workerId);
  }

  /** Between the two calls of a deregistration the id can be the only
      dangling index entry; a listing skips it and shows what it shows
      once the deregistration is complete. */
  lemma DeregisterMidStateListing(s: Store, id: string)
    requires Consistent(s)
    ensures Dangling(RecordDeleted(s, Key(id))) <= {id}
    ensures Listed(RecordDeleted(s, Key(id))) == Listed(AfterDeregister(s, id))
  {
    var m := RecordDeleted(s, Key(id));
    forall x | x in Dangling(m)
      ensures x == id
    {
      KeyInjective(x, id);
    }
  }

  // ---------------------------------------------------------------------
  // Listing

  /** The store's batch read: one answer per key, absent keys as `None`. */
  function MultiGet(records: map<string, Worker>, keys: seq<string>): (r: seq<Option<Worker>>)
    ensures |r| == |keys|
    ensures forall i :: 0 <= i < |keys| ==> r[i] == (if keys[i] in records then Some(records[keys[i]]) else None)
  {
    seq(|keys|, i requires 0 <= i < |keys| => if keys[i] in records then Some(records[keys[i]]) else None)
  }

  /** The values that were found, in order. */
  function Present(values: seq<Option<Worker>>): (r: seq<Worker>)
    decreases |values|
  {
    if values == [] then []
    else
      var last := values[|values| - 1];
      Present(values[..|values| - 1]) + (if last.Some? then [last.value] else [])
  }

  /** The listing, given the index members in the order the store returned
      them: look up every member's key and keep the records that exist. */
  function AllWorkers(records: map<string, Worker>, members: seq<string>): seq<Worker>
  {
    if members == [] then []
    else Present(MultiGet(records, seq(|members|, i requires 0 <= i < |members| => Key(members[i]))))
  }

  /** Appending one member appends its record, if it has one. */
  lemma AllWorkersAppend(records: map<string, Worker>, members: seq<string>, id: string)
    ensures AllWorkers(records, members + [id])
         == AllWorkers(records, members) + (if Key(id) in records then [records[Key(id)]] else [])
  {
    var m := members + [id];
    var ks := seq(|m|, i requires 0 <= i < |m| => Key(m[i]));
    var vs := MultiGet(records, ks);
    var us := MultiGet(records, seq(|members|, i requires 0 <= i < |members| => Key(members[i])));
    assert vs[..|vs| - 1] == us;
    assert vs[|vs| - 1] == if Key(id) in records then Some(records[Key(id)]) else None;
    assert AllWorkers(records, m) == Present(vs);
    if members == [] {
      assert us == [];
    }
  }

  ghost predicate Distinct(ids: seq<string>)
  {
    forall i, j :: 0 <= i < j < |ids| ==> ids[i] != ids[j]
  }

  /** A listing contains exactly the records of the members that have one. */
  lemma {:induction false} AllWorkersMembers(records: map<string, Worker>, members: seq<string>, w: Worker)
    ensures w in AllWorkers(records, members)
        <==> exists id :: id in members && Key(id) in records && records[Key(id)] == w
    decreases |members|
  {
    if members != [] {
      var init, id := members[..|members| - 1], members[|members| - 1];
      assert members == init + [id];
      AllWorkersAppend(records, init, id);
      AllWorkersMembers(records, init, w);
      if w in AllWorkers(records, init) {
        var x :| x in init && Key(x) in records && records[Key(x)] == w;
        assert x in members;
      }
      forall x | x in members && Key(x) in records && records[Key(x)] == w
        ensures w in AllWorkers(records, members)
      {
        if x != id {
          assert x in init;
        }
      }
    }
  }

  /** Members whose record is missing. */
  ghost function MissingMembers(records: map<string, Worker>, members: seq<string>): set<string>
  {
    set id | id in members && Key(id) !in records
  }

  lemma MissingMembersAppend(records: map<string, Worker>, init: seq<string>, last: string)
    requires last !in init
    ensures |MissingMembers(records, init + [last])|
         == |MissingMembers(records, init)| + (if Key(last) in records then 0 else 1)
  {
    var before, after := MissingMembers(records, init), MissingMembers(records, init + [last]);
    if Key(last) in records {
      assert after == before;
    } else {
      assert after == before + {last};
    }
  }

  /** A listing over distinct members is as long as the members minus those
      whose record is missing. */
  lemma {:induction false} AllWorkersCount(records: map<string, Worker>, members: seq<string>)
    requires Distinct(members)
    ensures |AllWorkers(records, members)| + |MissingMembers(records, members)| == |members|
    decreases |members|
  {
    if members == [] {
      assert MissingMembers(records, members) == {};
    } else {
      var init, last := members[..|members| - 1], members[|members| - 1];
      assert members == init + [last];
      AllWorkersAppend(records, init, last);
      AllWorkersCount(records, init);
      MissingMembersAppend(records, init, last);
    }
  }

  // ---------------------------------------------------------------------
  // The service

  class WorkerService {
    var records: map<string, Worker>
    var index: set<string>
    const throughputMonitor: ThroughputMonitor
    const config: Config

    function Snapshot(): Store
      reads this
    {
      Store(records, index)
    }

    ghost predicate Valid()
      reads this
    {
      Consistent(Snapshot())
    }

    constructor (initial: Store, throughputMonitor: ThroughputMonitor, config: Config)
      ensures Snapshot() == initial
      ensures this.throughputMonitor == throughputMonitor && this.config == config
    {
      records := initial.records;
      index := initial.index;
      this.throughputMonitor := throughputMonitor;
      this.config := config;
    }

    /** Store the record under the worker's key, index its id, and return
        the worker unchanged. */
    method RegisterWorker(worker: Worker) returns (r: Worker)
      modifies this
      ensures r == worker
      ensures Snapshot() == AfterRegister(old(Snapshot()), worker)
      ensures old(Valid()) ==> Valid()
    {
      var key := Key(worker.workerId);
      records := records[key := worker];
      index := index + {worker.workerId};
      r := worker;
      if old(Valid()) {
        RegisterKeepsConsistent(old(Snapshot()), worker);
      }
    }

    /** Delete the worker's record, then remove its id from the index. */
    method DeregisterWorker(workerId: string)
      modifies this
      ensures Snapshot() == AfterDeregister(old(Snapshot()), workerId)
      ensures old(Valid()) ==> Valid()
      ensures old(Valid()) && workerId !in old(index) ==> Snapshot() == old(Snapshot())
    {
      var key := Key(workerId);
      records := records - {key};
      index := index - {workerId};
      if old(Valid()) {
        DeregisterKeepsConsistent(old(Snapshot()), workerId);
      }
    }

    /** Read the worker's record; if it exists, rewrite it with the new
        count, status active and heartbeat `now`, and return it. */
    method UpdateHealth(workerId: string, processedCount: int, now: int) returns (r: Option<Worker>)
      modifies this
      ensures (Snapshot(), r) == AfterHealthUpdate(old(Snapshot()), workerId, processedCount, now)
      ensures Key(workerId) !in old(records) ==> r == None && Snapshot() == old(Snapshot())
      ensures Key(workerId) in old(records) ==>
        && r == Some(Heartbeat(old(records)[Key(workerId)], processedCount, now))
        && records == old(records)[Key(workerId) := r.value]
        && index == old(index)
      ensures old(Valid()) ==> Valid()
    {
      var key := Key(workerId);
      if key in records {
        var worker := records[key];
        worker := worker.(lastHeartbeat := now, processedCount := processedCount, status := Active);
        records := records[key := worker];
        return Some(worker);
      }
      return None;
    }

    /** Read the index members (in an order the store picks), fetch their
        records in one batch and keep those that exist. */
    method GetAllWorkers() returns (workers: seq<Worker>, ghost members: seq<string>)
      ensures Distinct(members) && forall id :: id in members <==> id in index
      ensures workers == AllWorkers(records, members)
      ensures index == {} ==> workers == []
      ensures |workers| == |Resolvable(Snapshot())|
      ensures |workers| + |Dangling(Snapshot())| == |index|
      ensures forall w :: w in workers <==> w in Listed(Snapshot())
    {
      if index == {} {
        assert Dangling(Snapshot()) == {} && Resolvable(Snapshot()) == {};
        return [], [];
      }
      var ids: seq<string> := [];
      var pending := index;
      while pending != {}
        invariant pending <= index
        invariant Distinct(ids)
        invariant forall id :: id in ids <==> id in index && id !in pending
        decreases |pending|
      {
        var id :| id in pending;
        ids := ids + [id];
        pending := pending - {id};
      }
      workers := AllWorkers(records, ids);
      members := ids;
      AllWorkersCount(records, ids);
      assert MissingMembers(records, ids) == Dangling(Snapshot());
      assert |ids| == |index| by {
        DistinctSize(ids, index);
      }
      IndexSplits(Snapshot());
      forall w
        ensures w in workers <==> w in Listed(Snapshot())
      {
        AllWorkersMembers(records, ids, w);
      }
    }

    /** The registry's own copy of the scaling decision: the monitor's
        reading and the size of the listing, fed to the one decision rule. */
    method GetScalingRecommendation(now: int) returns (r: Recommendation)
      ensures r == Decide(Count(throughputMonitor.Snapshot(), now - 1, now), |Resolvable(Snapshot())|, config)
      ensures Valid() ==> r.activeWorkers == |index|
    {
      var currentThroughput := throughputMonitor.GetCurrentThroughput(now);
      var workers;
      ghost var members;
      workers, members := GetAllWorkers();
      r := Decide(currentThroughput, |workers|, config);
      if Valid() {
        ConsistentListing(Snapshot());
      }
    }
  }

  /** A sequence without repeats that holds exactly the elements of a set is
      as long as the set is large. */
  lemma {:induction false} DistinctSize(ids: seq<string>, s: set<string>)
    requires Distinct(ids)
    requires forall id :: id in ids <==> id in s
    ensures |ids| == |s|
    decreases |ids|
  {
    if ids != [] {
      var init, last := ids[..|ids| - 1], ids[|ids| - 1];
      assert ids == init + [last];
      assert last !in init;
      DistinctSize(init, s - {last});
    } else {
      assert s == {};
    }
  }

  /** In a consistent registry the listing has one record per indexed id,
      and each listed record is the record of an indexed worker. */
  lemma ConsistentListing(s: Store)
    requires Consistent(s)
    ensures Dangling(s) == {}
    ensures |Resolvable(s)| == |s.index|
    ensures forall w :: w in Listed(s) ==> w.workerId in s.index && s.records[Key(w.workerId)] == w
  {
    IndexSplits(s);
    forall w | w in Listed(s)
      ensures w.workerId in s.index && s.records[Key(w.workerId)] == w
    {
      var id :| id in s.index && Key(id) in s.records && s.records[Key(id)] == w;
      ConsistentLookup(s, id);
    }
    if s.index != {} {
      var id :| id in s.index;
      ConsistentLookup(s, id);
    } else {
      assert Dangling(s) == {};
    }
  }
}
