/**
 * The typed object pool (Managers/PoolManager.cs): one FIFO queue of
 * inactive objects per category, filled once from the configuration,
 * drained by GetFromPool and refilled by ReturnToPool.
 */
module Pool {
  import opened Data

  /** The queue table: each category's queue of pooled objects, front first. */
  type Pools = map<DataType, seq<ObjId>>

  /** How many objects the configuration pre-spawns for category t, summed over its rows. */
  function SpawnTotal(config: seq<DataEntry>, t: DataType): (total: int)
  {
    if config == [] then 0
    else (if config[0].dataType == t then config[0].maxSpawn else 0) + SpawnTotal(config[1..], t)
  }

  /** Adding one row adds its maxSpawn to its own category's total and nothing to the others. */
  lemma {:induction false} SpawnTotalAppend(config: seq<DataEntry>, e: DataEntry, t: DataType)
    ensures SpawnTotal(config + [e], t) == SpawnTotal(config, t) + (if e.dataType == t then e.maxSpawn else 0)
  {
    if config != [] {
      assert (config + [e])[1..] == config[1..] + [e];
      SpawnTotalAppend(config[1..], e, t);
    }
  }

  /** The categories named by the configuration. */
  function ConfiguredTypes(config: seq<DataEntry>): (types: set<DataType>)
  {
    set e | e in config :: e.dataType
  }

  /** Extending a configuration prefix by its next row adds that row's category and maxSpawn. */
  lemma PrefixStep(config: seq<DataEntry>, k: nat)
    requires k < |config|
    ensures ConfiguredTypes(config[..k + 1]) == ConfiguredTypes(config[..k]) + {config[k].dataType}
    ensures forall t :: SpawnTotal(config[..k + 1], t) == SpawnTotal(config[..k], t) + (if config[k].dataType == t then config[k].maxSpawn else 0)
  {
    assert config[..k + 1] == config[..k] + [config[k]];
    forall t
      ensures SpawnTotal(config[..k + 1], t) == SpawnTotal(config[..k], t) + (if config[k].dataType == t then config[k].maxSpawn else 0)
    {
      SpawnTotalAppend(config[..k], config[k], t);
    }
  }

  /**
   * `now` is `start` with the rows of config added: each category's queue keeps
   * its old contents as a prefix and has grown by the category's total.
   */
  ghost predicate FilledFrom(start: Pools, now: Pools, config: seq<DataEntry>)
  {
    && now.Keys == start.Keys + ConfiguredTypes(config)
    && forall t :: QueueOf(start, t) <= QueueOf(now, t) && |QueueOf(now, t)| == |QueueOf(start, t)| + SpawnTotal(config, t)
  }

  /** Filling the queue of the next row's category by its maxSpawn extends FilledFrom to that row. */
  lemma FilledStep(start: Pools, mid: Pools, now: Pools, config: seq<DataEntry>, k: nat)
    requires k < |config| && config[k].maxSpawn >= 0
    requires FilledFrom(start, mid, config[..k])
    requires config[k].dataType in now && now == mid[config[k].dataType := now[config[k].dataType]]
    requires QueueOf(mid, config[k].dataType) <= now[config[k].dataType]
    requires |now[config[k].dataType]| == |QueueOf(mid, config[k].dataType)| + config[k].maxSpawn
    ensures FilledFrom(start, now, config[..k + 1])
  {
    PrefixStep(config, k);
    forall t
      ensures QueueOf(start, t) <= QueueOf(now, t)
      ensures |QueueOf(now, t)| == |QueueOf(start, t)| + SpawnTotal(config[..k + 1], t)
    {
      if t != config[k].dataType {
        assert QueueOf(now, t) == QueueOf(mid, t);
      }
    }
  }

  /** What a fetch hands out, together with the queue table it leaves behind. */
  datatype Fetch = Fetch(obj: ObjRef, pools: Pools)

  /** The queue-table effect of GetFromPool: dequeue the front of t's queue, if there is one. */
  function Take(pools: Pools, t: DataType): (f: Fetch)
  {
    if t !in pools || pools[t] == [] then Fetch(Null, pools)
    else Fetch(Ref(pools[t][0]), pools[t := pools[t][1..]])
  }

  /** The queue-table effect of ReturnToPool: enqueue o at the tail of t's queue. */
  function Give(pools: Pools, o: ObjId, t: DataType): (pools': Pools)
    requires t in pools
  {
    pools[t := pools[t] + [o]]
  }

  /** Returning an object to an empty queue and fetching again hands back that object and restores the table. */
  lemma FifoRoundTrip(pools: Pools, o: ObjId, t: DataType)
    requires t in pools && pools[t] == []
    ensures Take(Give(pools, o, t), t) == Fetch(Ref(o), pools)
  {
    assert Give(pools, o, t)[t][1..] == [];
    assert pools[t := []] == pools;
  }

  /**
   * On a non-empty queue a return does not overtake: fetching after returning o gives
   * the same object as fetching before, and o still waits at the tail.
   */
  lemma FifoTakeGive(pools: Pools, o: ObjId, t: DataType)
    requires t in pools && pools[t] != []
    ensures Take(Give(pools, o, t), t).obj == Take(pools, t).obj
    ensures Take(Give(pools, o, t), t).pools == Give(Take(pools, t).pools, o, t)
  {
    assert (pools[t] + [o])[1..] == pools[t][1..] + [o];
  }

  /**
   * A fresh identity: one that no object in `used` has. Stands for the new
   * object that Instantiate creates.
   */
  method FreshId(used: set<ObjId>) returns (id: ObjId)
    ensures id !in used
  {
    var rest := used;
    id := 0;
    while rest != {}
      invariant rest <= used
      invariant forall x :: x in used && x !in rest ==> x < id
      decreases |rest|
    {
      var x :| x in rest;
      if id <= x {
        id := x + 1;
      }
      rest := rest - {x};
    }
  }

  /** t's queue, or the empty queue when t has none. */
  function QueueOf(pools: Pools, t: DataType): (q: seq<ObjId>)
  {
    if t in pools then pools[t] else []
  }

  /** All objects instantiated for category t. */
  ghost function OfKind(kind: map<ObjId, DataType>, t: DataType): (objs: set<ObjId>)
  {
    set o | o in kind && kind[o] == t
  }

  /** The objects of category t that are active, that is, handed out of the pool. */
  ghost function ActiveOfKind(kind: map<ObjId, DataType>, active: map<ObjId, bool>, t: DataType): (objs: set<ObjId>)
  {
    set o | o in kind && kind[o] == t && o in active && active[o]
  }

  /** Every queued object was instantiated for that queue's category and is inactive. */
  ghost predicate QueuedWellKinded(pools: Pools, active: map<ObjId, bool>, kind: map<ObjId, DataType>)
    requires kind.Keys <= active.Keys
  {
    forall t, o :: t in pools && o in pools[t] ==> o in kind && kind[o] == t && !active[o]
  }

  /** Every inactive object waits in its own category's queue. */
  ghost predicate InactiveQueued(pools: Pools, active: map<ObjId, bool>, kind: map<ObjId, DataType>)
    requires kind.Keys <= active.Keys
    requires forall o :: o in kind ==> kind[o] in pools
  {
    forall o :: o in kind && !active[o] ==> o in pools[kind[o]]
  }

  /** No queue holds an object twice. */
  ghost predicate QueuesDistinct(pools: Pools)
  {
    forall t :: t in pools ==> Distinct(pools[t])
  }

  /**
   * The closed-loop invariant of the pool: every instantiated object is either
   * inactive and queued exactly once in its own category's queue, or active and
   * out of the pool; the queues hold nothing else.
   */
  ghost predicate Closed(pools: Pools, active: map<ObjId, bool>, kind: map<ObjId, DataType>)
  {
    && kind.Keys <= active.Keys
    && (forall o :: o in kind ==> kind[o] in pools)
    && QueuesDistinct(pools)
    && QueuedWellKinded(pools, active, kind)
    && InactiveQueued(pools, active, kind)
  }

  /** A fetch keeps the invariant: the front object leaves its queue and becomes active. */
  lemma ClosedAfterTake(pools: Pools, active: map<ObjId, bool>, kind: map<ObjId, DataType>, t: DataType)
    requires Closed(pools, active, kind) && t in pools && pools[t] != []
    ensures Closed(Take(pools, t).pools, active[pools[t][0] := true], kind)
  {
    var q := pools[t];
    var pools', active' := pools[t := q[1..]], active[q[0] := true];
    TailOfDistinct(q);
    assert QueuesDistinct(pools');
    TakeWellKinded(pools, active, kind, t);
    TakeInactiveQueued(pools, active, kind, t);
  }

  /** After a fetch, the queues still hold only inactive objects of their own category. */
  lemma TakeWellKinded(pools: Pools, active: map<ObjId, bool>, kind: map<ObjId, DataType>, t: DataType)
    requires kind.Keys <= active.Keys && t in pools && pools[t] != [] && Distinct(pools[t])
    requires QueuedWellKinded(pools, active, kind)
    ensures QueuedWellKinded(pools[t := pools[t][1..]], active[pools[t][0] := true], kind)
  {
    var q := pools[t];
    var pools', active' := pools[t := q[1..]], active[q[0] := true];
    TailOfDistinct(q);
    forall u, x | u in pools' && x in pools'[u]
      ensures x in kind && kind[x] == u && !active'[x]
    {
      if u != t {
        assert x in pools[u];
      } else {
        assert x in q && x != q[0];
      }
    }
  }

  /** After a fetch, every inactive object is still queued: only the fetched one left, and it is active. */
  lemma TakeInactiveQueued(pools: Pools, active: map<ObjId, bool>, kind: map<ObjId, DataType>, t: DataType)
    requires kind.Keys <= active.Keys && (forall o :: o in kind ==> kind[o] in pools)
    requires t in pools && pools[t] != []
    requires InactiveQueued(pools, active, kind)
    ensures InactiveQueued(pools[t := pools[t][1..]], active[pools[t][0] := true], kind)
  {
    var q := pools[t];
    var pools', active' := pools[t := q[1..]], active[q[0] := true];
    forall x | x in kind && !active'[x]
      ensures x in pools'[kind[x]]
    {
      if kind[x] == t {
        var j :| 0 <= j < |q| && q[j] == x;
        assert q[1..][j - 1] == x;
      }
    }
  }

  /** Dropping the front of a queue without repetitions leaves one without it and without repetitions. */
  lemma TailOfDistinct(q: seq<ObjId>)
    requires Distinct(q) && q != []
    ensures Distinct(q[1..])
    ensures forall x :: x in q[1..] ==> x in q && x != q[0]
  {
    forall x | x in q[1..]
      ensures x in q && x != q[0]
    {
      var j :| 0 <= j < |q[1..]| && q[1..][j] == x;
      assert q[j + 1] == x;
    }
  }

  /** A return keeps the invariant when the object was handed out under the category it is returned to. */
  lemma ClosedAfterGive(pools: Pools, active: map<ObjId, bool>, kind: map<ObjId, DataType>, o: ObjId, t: DataType)
    requires Closed(pools, active, kind) && o in ActiveOfKind(kind, active, t)
    ensures t in pools && Closed(Give(pools, o, t), active[o := false], kind)
  {
    assert o !in pools[t];
    assert QueuesDistinct(Give(pools, o, t));
    EnqueueWellKinded(pools, active, kind, o, t);
  }

  /** Enqueueing an object of category t, not queued yet, keeps the queues well kinded once it is inactive. */
  lemma EnqueueWellKinded(pools: Pools, active: map<ObjId, bool>, kind: map<ObjId, DataType>, o: ObjId, t: DataType)
    requires kind.Keys <= active.Keys && t in pools && o in kind && kind[o] == t
    requires QueuedWellKinded(pools, active, kind)
    ensures QueuedWellKinded(pools[t := pools[t] + [o]], active[o := false], kind)
  {
    var pools', active' := pools[t := pools[t] + [o]], active[o := false];
    forall u, x | u in pools' && x in pools'[u]
      ensures x in kind && kind[x] == u && !active'[x]
    {
      if u == t && x != o {
        assert x in pools[t];
      } else if u != t {
        assert x in pools[u];
      }
    }
  }

  /** Creating an empty queue for a category that has none keeps the invariant. */
  lemma ClosedAfterNewQueue(pools: Pools, active: map<ObjId, bool>, kind: map<ObjId, DataType>, t: DataType)
    requires Closed(pools, active, kind) && t !in pools
    ensures Closed(pools[t := []], active, kind)
  {
    var pools' := pools[t := []];
    forall u, x | u in pools' && x in pools'[u]
      ensures x in kind && kind[x] == u && !active[x]
    {
      assert u != t && x in pools[u];
    }
  }

  /** Enqueueing a newly instantiated, inactive object keeps the invariant. */
  lemma ClosedAfterSpawn(pools: Pools, active: map<ObjId, bool>, kind: map<ObjId, DataType>, o: ObjId, t: DataType)
    requires Closed(pools, active, kind) && t in pools && o !in active
    ensures Closed(pools[t := pools[t] + [o]], active[o := false], kind[o := t])
  {
    var pools', active', kind' := pools[t := pools[t] + [o]], active[o := false], kind[o := t];
    assert o !in pools[t];
    assert QueuesDistinct(pools');
    forall u, x | u in pools' && x in pools'[u]
      ensures x in kind' && kind'[x] == u && !active'[x]
    {
      if u == t && x != o {
        assert x in pools[t];
      } else if u != t {
        assert x in pools[u];
      }
    }
  }

  /**
   * Conservation: under the invariant, the objects of category t still queued
   * plus those handed out and not yet returned are exactly the objects
   * instantiated for t.
   */
  lemma Conservation(pools: Pools, active: map<ObjId, bool>, kind: map<ObjId, DataType>, t: DataType)
    requires Closed(pools, active, kind)
    ensures |QueueOf(pools, t)| + |ActiveOfKind(kind, active, t)| == |OfKind(kind, t)|
  {
    DistinctCard(QueueOf(pools, t));
    QueuedAreInactive(pools, active, kind, t);
    assert OfKind(kind, t) == Elems(QueueOf(pools, t)) + ActiveOfKind(kind, active, t);
  }

  /** t's queue holds exactly the objects of category t that are not active. */
  lemma QueuedAreInactive(pools: Pools, active: map<ObjId, bool>, kind: map<ObjId, DataType>, t: DataType)
    requires Closed(pools, active, kind)
    ensures Elems(QueueOf(pools, t)) == OfKind(kind, t) - ActiveOfKind(kind, active, t)
  {
    forall x | x in Elems(QueueOf(pools, t))
      ensures x in OfKind(kind, t) - ActiveOfKind(kind, active, t)
    {
      assert t in pools && x in pools[t];
    }
  }

  /** Every object flagged in `before` is still flagged, with the same value, in `after`. */
  ghost predicate KeepsFlags(before: map<ObjId, bool>, after: map<ObjId, bool>)
  {
    forall o :: o in before ==> o in after && after[o] == before[o]
  }

  /** What ReturnToPool ends with: normally, or with the dictionary indexer's missing-key exception. */
  datatype Outcome = Completed | KeyNotFound

  class PoolManager {
    /** Category -> FIFO queue of inactive objects (front = index 0). */
    var poolDictionary: Pools
    /** The SetActive flag of every object the pool has created or been handed. */
    var active: map<ObjId, bool>
    /** The category each object was instantiated for at initialisation. */
    ghost var kind: map<ObjId, DataType>

    /** Every instantiated object has an activity flag. */
    ghost predicate Valid()
      reads this
    {
      kind.Keys <= active.Keys
    }

    /** t's queue, or the empty queue when t has none. */
    function Queued(t: DataType): (q: seq<ObjId>)
      reads this
    {
      QueueOf(poolDictionary, t)
    }

    ghost function KindOf(t: DataType): (objs: set<ObjId>)
      reads this
    {
      OfKind(kind, t)
    }

    ghost function ActiveOf(t: DataType): (objs: set<ObjId>)
      reads this
    {
      ActiveOfKind(kind, active, t)
    }

    /** No instantiated object is active. */
    ghost predicate AllPooled()
      reads this
      requires Valid()
    {
      forall o :: o in kind ==> !active[o]
    }

    ghost predicate Conserving()
      reads this
    {
      Closed(poolDictionary, active, kind)
    }

    /** Start: the pool begins empty and is filled from the configuration. */
    constructor Start(config: seq<DataEntry>)
      requires WellFormedConfig(config)
      ensures Valid() && Conserving() && AllPooled()
      ensures poolDictionary.Keys == ConfiguredTypes(config)
      ensures forall t :: |Queued(t)| == SpawnTotal(config, t)
      ensures forall t :: |KindOf(t)| == SpawnTotal(config, t)
    {
      poolDictionary := map[];
      active := map[];
      kind := map[];
      new;
      InitializePool(config);
      forall t
        ensures |KindOf(t)| == SpawnTotal(config, t)
      {
        Conservation(poolDictionary, active, kind, t);
        assert ActiveOf(t) == {};
      }
    }

    /**
     * Pre-fill the queues: for every configured row, create t's queue if it is
     * missing (a repeated category reuses its queue) and enqueue maxSpawn new
     * inactive objects.
     */
    method InitializePool(config: seq<DataEntry>)
      requires Valid() && WellFormedConfig(config)
      modifies this
      ensures Valid()
      ensures poolDictionary.Keys == old(poolDictionary.Keys) + ConfiguredTypes(config)
      ensures forall t :: old(Queued(t)) <= Queued(t)
      ensures forall t :: |Queued(t)| == |old(Queued(t))| + SpawnTotal(config, t)
      ensures KeepsFlags(old(active), active)
      ensures old(Conserving()) ==> Conserving()
      ensures old(AllPooled()) ==> AllPooled()
    {
      var k := 0;
      ghost var closed, pooled := Conserving(), AllPooled();
      assert FilledFrom(poolDictionary, poolDictionary, config[..0]);
      while k < |config|
        invariant 0 <= k <= |config|
        invariant Valid()
        invariant FilledFrom(old(poolDictionary), poolDictionary, config[..k])
        invariant KeepsFlags(old(active), active)
        invariant closed ==> Conserving()
        invariant pooled ==> AllPooled()
      {
        ghost var mid := poolDictionary;
        AddEntry(config[k]);
        FilledStep(old(poolDictionary), mid, poolDictionary, config, k);
        k := k + 1;
      }
      assert config[..k] == config;
    }

    /**
     * One pass of InitializePool's outer loop: look up the entry's queue, create
     * it when missing, and enqueue maxSpawn new inactive objects.
     */
    method AddEntry(data: DataEntry)
      requires Valid() && WellFormedEntry(data)
      modifies this
      ensures Valid()
      ensures data.dataType in poolDictionary
      ensures poolDictionary == old(poolDictionary)[data.dataType := poolDictionary[data.dataType]]
      ensures old(Queued(data.dataType)) <= poolDictionary[data.dataType]
      ensures |poolDictionary[data.dataType]| == |old(Queued(data.dataType))| + data.maxSpawn
      ensures KeepsFlags(old(active), active)
      ensures old(Conserving()) ==> Conserving()
      ensures old(AllPooled()) ==> AllPooled()
    {
      if data.dataType !in poolDictionary {
        if Conserving() {
          ClosedAfterNewQueue(poolDictionary, active, kind, data.dataType);
        }
        poolDictionary := poolDictionary[data.dataType := []];
      }
      SpawnInto(data.dataType, data.maxSpawn);
    }

    /** The inner loop of InitializePool: instantiate n objects, deactivate each and enqueue it in t's queue. */
    method SpawnInto(t: DataType, n: int)
      requires Valid() && t in poolDictionary
      modifies this
      ensures Valid()
      ensures t in poolDictionary && poolDictionary == old(poolDictionary)[t := poolDictionary[t]]
      ensures old(poolDictionary)[t] <= poolDictionary[t]
      ensures |poolDictionary[t]| == |old(poolDictionary)[t]| + (if n < 0 then 0 else n)
      ensures KeepsFlags(old(active), active)
      ensures old(Conserving()) ==> Conserving()
      ensures old(AllPooled()) ==> AllPooled()
    {
      var i := 0;
      ghost var closed, pooled := Conserving(), AllPooled();
      while i < n
        invariant 0 <= i <= (if n < 0 then 0 else n)
        invariant Valid() && t in poolDictionary
        invariant poolDictionary == old(poolDictionary)[t := poolDictionary[t]]
        invariant old(poolDictionary)[t] <= poolDictionary[t]
        invariant |poolDictionary[t]| == |old(poolDictionary)[t]| + i
        invariant KeepsFlags(old(active), active)
        invariant closed ==> Conserving()
        invariant pooled ==> AllPooled()
      {
        var _ := SpawnOne(t);
        i := i + 1;
      }
    }

    /** One Instantiate: a new object, deactivated and enqueued at the tail of t's queue. */
    method SpawnOne(t: DataType) returns (obj: ObjId)
      requires Valid() && t in poolDictionary
      modifies this
      ensures Valid()
      ensures obj !in old(active)
      ensures poolDictionary == old(poolDictionary)[t := old(poolDictionary)[t] + [obj]]
      ensures active == old(active)[obj := false]
      ensures kind == old(kind)[obj := t]
      ensures old(Conserving()) ==> Conserving()
      ensures old(AllPooled()) ==> AllPooled()
    {
      obj := FreshId(active.Keys);
      if Conserving() {
        ClosedAfterSpawn(poolDictionary, active, kind, obj, t);
      }
      active := active[obj := false];
      kind := kind[obj := t];
      poolDictionary := poolDictionary[t := poolDictionary[t] + [obj]];
    }

    /**
     * Hand out the front object of t's queue and activate it; a missing or
     * empty queue yields null and changes nothing.
     */
    method GetFromPool(t: DataType) returns (obj: ObjRef)
      requires Valid()
      modifies this
      ensures Valid()
      ensures Fetch(obj, poolDictionary) == Take(old(poolDictionary), t)
      ensures obj.Null? <==> old(Queued(t)) == []
      ensures obj.Null? ==> poolDictionary == old(poolDictionary) && active == old(active)
      ensures obj.Ref? ==> old(Queued(t)) != [] && obj.id == old(Queued(t))[0] && Queued(t) == old(Queued(t))[1..]
      ensures obj.Ref? ==> active == old(active)[obj.id := true]
      ensures forall u :: u != t ==> Queued(u) == old(Queued(u))
      ensures kind == old(kind)
      ensures old(Conserving()) ==> Conserving()
    {
      if t !in poolDictionary || poolDictionary[t] == [] {
        return Null;
      }
      if Conserving() {
        ClosedAfterTake(poolDictionary, active, kind, t);
      }
      var pool := poolDictionary[t];
      var o := pool[0];
      poolDictionary := poolDictionary[t := pool[1..]];
      active := active[o := true];
      obj := Ref(o);
    }

    /**
     * Deactivate obj and enqueue it at the tail of t's queue. A null object is
     * ignored; when t has no queue the object stays deactivated and the
     * dictionary indexer fails with KeyNotFound.
     */
    method ReturnToPool(obj: ObjRef, t: DataType) returns (outcome: Outcome)
      requires Valid()
      modifies this
      ensures Valid()
      ensures obj.Null? ==> outcome == Completed && poolDictionary == old(poolDictionary) && active == old(active)
      ensures obj.Ref? ==> active == old(active)[obj.id := false]
      ensures obj.Ref? ==> (outcome == KeyNotFound <==> t !in old(poolDictionary))
      ensures obj.Ref? && t in old(poolDictionary) ==> poolDictionary == Give(old(poolDictionary), obj.id, t)
      ensures obj.Ref? && t in old(poolDictionary) ==> Queued(t) == old(Queued(t)) + [obj.id]
      ensures outcome == KeyNotFound ==> poolDictionary == old(poolDictionary)
      ensures forall u :: u != t ==> Queued(u) == old(Queued(u))
      ensures kind == old(kind)
      ensures old(Conserving()) && obj.Ref? && obj.id in old(ActiveOf(t)) ==> Conserving() && outcome == Completed
    {
      if obj.Null? {
        return Completed;
      }
      if Conserving() && obj.id in ActiveOf(t) {
        ClosedAfterGive(poolDictionary, active, kind, obj.id, t);
      }
      active := active[obj.id := false];
      if t !in poolDictionary {
        return KeyNotFound;
      }
      poolDictionary := poolDictionary[t := poolDictionary[t] + [obj.id]];
      outcome := Completed;
    }
  }

  /**
   * A handed-out object returned under the category it was taken from comes back
   * out after every object queued before it, and the count per category stays
   * the same across the fetch and the return.
   */
  method GetThenReturn(p: PoolManager, t: DataType) returns (obj: ObjRef, outcome: Outcome)
    requires p.Valid() && p.Conserving()
    modifies p
    ensures p.Conserving() && outcome == Completed
    ensures obj.Ref? ==> old(p.Queued(t)) != [] && p.Queued(t) == old(p.Queued(t))[1..] + [obj.id]
    ensures obj.Null? ==> p.poolDictionary == old(p.poolDictionary)
    ensures |p.Queued(t)| + |p.ActiveOf(t)| == |p.KindOf(t)| == old(|p.KindOf(t)|)
  {
    obj := p.GetFromPool(t);
    if obj.Ref? {
      assert obj.id in p.ActiveOf(t) by {
        assert obj.id in old(p.Queued(t));
      }
    }
    outcome := p.ReturnToPool(obj, t);
    Conservation(p.poolDictionary, p.active, p.kind, t);
  }
}
