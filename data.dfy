/**
 * Declarations shared by the pool, the generator and the carrier:
 * the object category, one row of the pool configuration, and object
 * identities (DataSO.cs, Interfaces.cs).
 */
module Data {

  /** The category of a pooled object: the key of pools and carry stacks. */
  datatype DataType = None | ObjectTypeA | ObjectTypeB

  /** One configured row: a category and how many objects to pre-spawn for it. */
  datatype DataEntry = DataEntry(dataType: DataType, maxSpawn: int)

  /** The inspector keeps every maxSpawn within [1, 10000]. */
  predicate WellFormedEntry(e: DataEntry)
  {
    1 <= e.maxSpawn <= 10000
  }

  predicate WellFormedConfig(config: seq<DataEntry>)
  {
    forall i :: 0 <= i < |config| ==> WellFormedEntry(config[i])
  }

  /** The identity of a game object; the model never looks inside an object. */
  type ObjId = nat

  /** A GameObject reference that may be null. */
  datatype ObjRef = Null | Ref(id: ObjId)

  /** No element occurs twice. */
  predicate Distinct<T(==)>(s: seq<T>)
  {
    forall i, j :: 0 <= i < j < |s| ==> s[i] != s[j]
  }

  function Elems<T>(s: seq<T>): (r: set<T>)
  {
    set x | x in s
  }

  /** A sequence without repetitions has exactly as many distinct elements as entries. */
  lemma {:induction false} DistinctCard<T>(s: seq<T>)
    requires Distinct(s)
    ensures |Elems(s)| == |s|
  {
    if s != [] {
      var init, last := s[..|s| - 1], s[|s| - 1];
      assert Distinct(init);
      DistinctCard(init);
      assert Elems(s) == Elems(init) + {last};
      assert last !in Elems(init);
    }
  }
}
