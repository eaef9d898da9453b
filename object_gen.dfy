/**
 * The object generator (ObjectGen.cs). Each generation tick fetches one object
 * of its category from the pool and places it on a grid of spawn points, filling
 * every point of a level before rising to the next; the objects are kept on a
 * stack. While a collector stands in the trigger, each sending tick pops the
 * most recent object and hands it over.
 * One coroutine iteration (the part after its wait) is one method call here.
 */
module Generator {
  import opened Data
  import Pool
  import opened Arith

  /** A grid cell: the spawn point used and the height level above it. */
  datatype Cell = Cell(point: nat, level: nat)

  /** The cell of the index-th generated object among `count` spawn points. */
  function GridCell(index: nat, count: nat): (c: Cell)
    requires count > 0
  {
    Cell(index % count, index / count)
  }

  /** Cells are row-major: the cell names a valid spawn point and gives the index back. */
  lemma GridCellInverse(index: nat, count: nat)
    requires count > 0
    ensures GridCell(index, count).point < count
    ensures GridCell(index, count).level * count + GridCell(index, count).point == index
  {
  }

  /** Different indices never share a cell. */
  lemma GridCellInjective(i: nat, j: nat, count: nat)
    requires count > 0 && GridCell(i, count) == GridCell(j, count)
    ensures i == j
  {
    GridCellInverse(i, count);
    GridCellInverse(j, count);
  }

  /**
   * The next index takes the next spawn point on the same level, or the first
   * point one level up once the level is full.
   */
  lemma GridCellNext(index: nat, count: nat)
    requires count > 0
    ensures var c, c' := GridCell(index, count), GridCell(index + 1, count);
            if c.point + 1 < count then c' == Cell(c.point + 1, c.level) else c' == Cell(0, c.level + 1)
  {
    var c := GridCell(index, count);
    GridCellInverse(index, count);
    if c.point + 1 < count {
      DivModUnique(index + 1, count, c.level, c.point + 1);
    } else {
      assert index + 1 == (c.level + 1) * count;
      DivModUnique(index + 1, count, c.level + 1, 0);
    }
  }

  /** The other collider of a trigger event: whether it carries an ICollectible, and which one. */
  datatype Collider = Collectible(collector: nat) | Plain

  /** The collector the generator last saw enter; null before the first one. */
  datatype CollectorRef = NoCollector | Collector(id: nat)

  /** What a generation tick did: nothing (the pool was empty), or placed an object. */
  datatype Spawn = NoSpawn | Placed(obj: ObjId, cell: Cell)

  class ObjectGen {
    /** The category this generator fetches from the pool. */
    const generateType: DataType
    /** generatePoint.Count: how many spawn points the grid has per level. */
    const pointCount: nat
    /** The generated objects still lying at the generator (top = last). */
    var objectCollection: seq<ObjId>
    var isPlayerPresent: bool
    var currentCollector: CollectorRef
    var generationIndex: int
    /** The cell each stacked object was placed in, parallel to objectCollection. */
    ghost var cells: seq<Cell>

    /**
     * The counter equals the stack size, and the object at stack position i
     * lies in the i-th cell of the grid.
     */
    ghost predicate Valid()
      reads this
    {
      && pointCount > 0
      && generationIndex == |objectCollection|
      && |cells| == |objectCollection|
      && forall i :: 0 <= i < |cells| ==> cells[i] == GridCell(i, pointCount)
    }

    /** A generator with `pointCount` spawn points, an empty stack and index 0. */
    constructor (generateType: DataType, pointCount: nat)
      requires pointCount > 0
      ensures Valid()
      ensures this.generateType == generateType && this.pointCount == pointCount
      ensures objectCollection == [] && generationIndex == 0
      ensures !isPlayerPresent && currentCollector == NoCollector
    {
      this.generateType := generateType;
      this.pointCount := pointCount;
      objectCollection := [];
      isPlayerPresent := false;
      currentCollector := NoCollector;
      generationIndex := 0;
      cells := [];
    }

    /**
     * One iteration of StartGeneration: fetch from the pool; on success place
     * the object in the cell of the current index, push it and advance the index.
     */
    method GenerationTick(pool: Pool.PoolManager) returns (spawn: Spawn)
      requires Valid() && pool.Valid()
      modifies this, pool
      ensures Valid() && pool.Valid()
      ensures Pool.Take(old(pool.poolDictionary), generateType).pools == pool.poolDictionary
      ensures spawn.NoSpawn? <==> old(pool.Queued(generateType)) == []
      ensures spawn.NoSpawn? ==>
                objectCollection == old(objectCollection) && generationIndex == old(generationIndex) && pool.active == old(pool.active)
      ensures spawn.Placed? ==>
                && Pool.Take(old(pool.poolDictionary), generateType).obj == Ref(spawn.obj)
                && spawn.cell == GridCell(old(generationIndex), pointCount)
                && objectCollection == old(objectCollection) + [spawn.obj]
                && generationIndex == old(generationIndex) + 1
                && pool.active == old(pool.active)[spawn.obj := true]
      ensures pool.kind == old(pool.kind)
      ensures old(pool.Conserving()) ==> pool.Conserving()
      ensures isPlayerPresent == old(isPlayerPresent) && currentCollector == old(currentCollector)
    {
      var obj := pool.GetFromPool(generateType);
      if obj.Null? {
        return NoSpawn;
      }
      var cell := Cell(generationIndex % pointCount, generationIndex / pointCount);
      objectCollection := objectCollection + [obj.id];
      cells := cells + [cell];
      generationIndex := generationIndex + 1;
      spawn := Placed(obj.id, cell);
    }

    /**
     * The body of one StartSendingPacket iteration, after its wait: pop the
     * most recent object, if any, for the current collector, and step the
     * index back so that the next spawn reuses the vacated cell.
     */
    method SendTick() returns (sent: ObjRef)
      requires Valid()
      modifies this
      ensures Valid()
      ensures old(objectCollection) == [] ==> sent == Null && objectCollection == [] && generationIndex == old(generationIndex)
      ensures old(objectCollection) != [] ==>
                && sent == Ref(old(objectCollection)[|old(objectCollection)| - 1])
                && objectCollection == old(objectCollection)[..|old(objectCollection)| - 1]
                && generationIndex == old(generationIndex) - 1
                && old(cells)[|old(cells)| - 1] == GridCell(generationIndex, pointCount)
      ensures SendingContinues() == old(SendingContinues()) && currentCollector == old(currentCollector)
    {
      if |objectCollection| > 0 {
        var top := objectCollection[|objectCollection| - 1];
        objectCollection := objectCollection[..|objectCollection| - 1];
        cells := cells[..|cells| - 1];
        generationIndex := generationIndex - 1;
        return Ref(top);
      }
      return Null;
    }

    /** The guard of StartSendingPacket's loop: sending goes on only while a collector is present. */
    predicate SendingContinues()
      reads this
    {
      isPlayerPresent
    }

    /** A collectible entering sets the presence flag and becomes the current collector; anything else is ignored. */
    method OnTriggerEnter(other: Collider)
      modifies this
      ensures other.Collectible? ==> SendingContinues() && currentCollector == Collector(other.collector)
      ensures other.Plain? ==> SendingContinues() == old(SendingContinues()) && currentCollector == old(currentCollector)
      ensures objectCollection == old(objectCollection) && generationIndex == old(generationIndex) && cells == old(cells)
    {
      if other.Collectible? {
        isPlayerPresent := true;
        currentCollector := Collector(other.collector);
      }
    }

    /** A collectible leaving clears the presence flag; the current collector is kept. */
    method OnTriggerExit(other: Collider)
      modifies this
      ensures other.Collectible? ==> !SendingContinues()
      ensures other.Plain? ==> SendingContinues() == old(SendingContinues())
      ensures currentCollector == old(currentCollector)
      ensures objectCollection == old(objectCollection) && generationIndex == old(generationIndex) && cells == old(cells)
    {
      if other.Collectible? {
        isPlayerPresent := false;
      }
    }
  }

  /**
   * Sending after generating gives back the object just generated and leaves the
   * generator's stack and counter as they were (LIFO).
   */
  method GenerateThenSend(gen: ObjectGen, pool: Pool.PoolManager) returns (spawn: Spawn, sent: ObjRef)
    requires gen.Valid() && pool.Valid()
    modifies gen, pool
    ensures gen.Valid()
    ensures spawn.Placed? ==> sent == Ref(spawn.obj)
    ensures spawn.Placed? ==> gen.objectCollection == old(gen.objectCollection) && gen.generationIndex == old(gen.generationIndex)
  {
    spawn := gen.GenerationTick(pool);
    sent := gen.SendTick();
  }
}
