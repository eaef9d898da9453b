/**
 * The player's carry stacks (Player.cs): one LIFO stack of collected objects
 * per category, and a slot per category fixed at its first pickup.
 * A Vector3 placement reduces to the integer pair (slot, height): the object
 * sits `slot` units behind the collection point and `height` upward offsets
 * above it.
 */
module Carrier {
  import opened Data

  /** One Collect call: the object and the category it was collected under. */
  datatype Pickup = Pickup(obj: ObjId, dataType: DataType)

  /** Where a collected object is animated to: its category's slot and its level in that stack. */
  datatype Placement = Placement(slot: nat, height: nat)

  /** The categories of a pickup history in order of their first pickup. */
  function FirstSeen(h: seq<Pickup>): (order: seq<DataType>)
  {
    if h == [] then []
    else
      var earlier, t := FirstSeen(h[..|h| - 1]), h[|h| - 1].dataType;
      if t in earlier then earlier else earlier + [t]
  }

  /** The objects collected under category t, oldest (bottom) first. */
  function StackOf(h: seq<Pickup>, t: DataType): (stack: seq<ObjId>)
  {
    if h == [] then []
    else StackOf(h[..|h| - 1], t) + (if h[|h| - 1].dataType == t then [h[|h| - 1].obj] else [])
  }

  /** No category gets two slots. */
  lemma {:induction false} FirstSeenDistinct(h: seq<Pickup>)
    ensures Distinct(FirstSeen(h))
  {
    if h != [] {
      FirstSeenDistinct(h[..|h| - 1]);
    }
  }

  /** A category has a slot exactly when it has been collected at least once. */
  lemma {:induction false} FirstSeenCovers(h: seq<Pickup>, t: DataType)
    ensures t in FirstSeen(h) <==> exists i :: 0 <= i < |h| && h[i].dataType == t
  {
    if h != [] {
      var init := h[..|h| - 1];
      FirstSeenCovers(init, t);
      if exists i :: 0 <= i < |init| && init[i].dataType == t {
        var i :| 0 <= i < |init| && init[i].dataType == t;
        assert h[i].dataType == t;
      }
      if exists i :: 0 <= i < |h| && h[i].dataType == t {
        var i :| 0 <= i < |h| && h[i].dataType == t;
        if i < |init| {
          assert init[i].dataType == t;
        }
      }
    }
  }

  /** A category never collected has an empty stack. */
  lemma {:induction false} StackOfUnseen(h: seq<Pickup>, t: DataType)
    requires t !in FirstSeen(h)
    ensures StackOf(h, t) == []
  {
    if h != [] {
      var init := h[..|h| - 1];
      assert t !in FirstSeen(init) && h[|h| - 1].dataType != t;
      StackOfUnseen(init, t);
    }
  }

  /** Later pickups only append to the first-pickup order: a slot, once given, is never reassigned. */
  lemma {:induction false} FirstSeenGrows(h: seq<Pickup>, more: seq<Pickup>)
    ensures FirstSeen(h) <= FirstSeen(h + more)
    decreases |more|
  {
    if more == [] {
      assert h + more == h;
    } else {
      var hm := h + more;
      assert hm[..|hm| - 1] == h + more[..|more| - 1];
      FirstSeenGrows(h, more[..|more| - 1]);
      assert FirstSeen(hm[..|hm| - 1]) <= FirstSeen(hm);
    }
  }

  /** Later pickups only push onto a stack: nothing ever leaves a carry stack. */
  lemma {:induction false} StackGrows(h: seq<Pickup>, more: seq<Pickup>, t: DataType)
    ensures StackOf(h, t) <= StackOf(h + more, t)
    decreases |more|
  {
    if more == [] {
      assert h + more == h;
    } else {
      var hm := h + more;
      assert hm[..|hm| - 1] == h + more[..|more| - 1];
      StackGrows(h, more[..|more| - 1], t);
      assert StackOf(hm[..|hm| - 1], t) <= StackOf(hm, t);
    }
  }

  /** Each category's stack holds as many objects as were collected under it. */
  lemma {:induction false} StackCountsPickups(h: seq<Pickup>, t: DataType)
    ensures |StackOf(h, t)| == |set i | 0 <= i < |h| && h[i].dataType == t|
  {
    if h != [] {
      var init := h[..|h| - 1];
      StackCountsPickups(init, t);
      var before := set i | 0 <= i < |init| && init[i].dataType == t;
      var after := set i | 0 <= i < |h| && h[i].dataType == t;
      if h[|h| - 1].dataType == t {
        assert after == before + {|h| - 1};
      } else {
        assert after == before;
      }
    }
  }

  /**
   * The carrier bookkeeping for a pickup history h: both dictionaries have the
   * categories collected so far as keys, each stack holds its category's
   * pickups in order, and slots number the categories 0, 1, 2, ... in order of
   * first pickup.
   */
  ghost predicate Tracks(stacks: map<DataType, seq<ObjId>>, slots: map<DataType, nat>, h: seq<Pickup>)
  {
    && stacks.Keys == slots.Keys
    && (forall t :: t in stacks <==> t in FirstSeen(h))
    && (forall t :: t in stacks ==> stacks[t] == StackOf(h, t))
    && (forall i :: 0 <= i < |FirstSeen(h)| ==> slots[FirstSeen(h)[i]] == i)
  }

  /** As many slots are taken as categories have been collected. */
  lemma SlotCount(stacks: map<DataType, seq<ObjId>>, slots: map<DataType, nat>, h: seq<Pickup>)
    requires Tracks(stacks, slots, h)
    ensures |slots| == |FirstSeen(h)|
  {
    FirstSeenDistinct(h);
    DistinctCard(FirstSeen(h));
    assert slots.Keys == Elems(FirstSeen(h));
  }

  /**
   * Collect keeps the bookkeeping: pushing obj on t's stack and giving a new
   * category the slot numbered by the count of slotted categories is exactly
   * what the extended pickup history prescribes.
   */
  lemma TracksAfterCollect(stacks: map<DataType, seq<ObjId>>, slots: map<DataType, nat>, h: seq<Pickup>, obj: ObjId, t: DataType)
    requires Tracks(stacks, slots, h)
    ensures Tracks(stacks[t := (if t in stacks then stacks[t] else []) + [obj]],
                   if t in slots then slots else slots[t := |slots|],
                   h + [Pickup(obj, t)])
  {
    var h' := h + [Pickup(obj, t)];
    assert h'[..|h'| - 1] == h;
    var order, order' := FirstSeen(h), FirstSeen(h');
    var stacks' := stacks[t := (if t in stacks then stacks[t] else []) + [obj]];
    var slots' := if t in slots then slots else slots[t := |slots|];
    forall u | u in stacks'
      ensures stacks'[u] == StackOf(h', u)
    {
      assert StackOf(h', u) == StackOf(h, u) + (if u == t then [obj] else []);
      if u == t && t !in stacks {
        StackOfUnseen(h, t);
      }
    }
    if t in order {
      assert order' == order;
    } else {
      assert order' == order + [t];
      SlotCount(stacks, slots, h);
      forall i | 0 <= i < |order'|
        ensures slots'[order'[i]] == i
      {
        if i < |order| {
          assert order'[i] == order[i];
        }
      }
    }
  }

  class Player {
    /** Category -> stack of collected objects (top = last). */
    var collectedObjects: map<DataType, seq<ObjId>>
    /** Category -> slot, counted in unit steps behind the collection point. */
    var collectedObjectPosition: map<DataType, nat>
    /** Every Collect so far, in call order. */
    ghost var pickups: seq<Pickup>

    /** The dictionaries agree with the pickups made so far. */
    ghost predicate Valid()
      reads this
    {
      Tracks(collectedObjects, collectedObjectPosition, pickups)
    }

    constructor ()
      ensures Valid() && pickups == []
      ensures collectedObjects == map[] && collectedObjectPosition == map[]
    {
      collectedObjects := map[];
      collectedObjectPosition := map[];
      pickups := [];
    }

    /**
     * Push obj onto t's stack (creating the stack on t's first pickup), give t
     * the next free slot if it has none, and return where obj is placed: its
     * category's slot and the stack height after the push.
     */
    method Collect(obj: ObjId, t: DataType) returns (placement: Placement)
      requires Valid()
      modifies this
      ensures Valid()
      ensures pickups == old(pickups) + [Pickup(obj, t)]
      ensures t in collectedObjects && collectedObjects[t] == (if t in old(collectedObjects) then old(collectedObjects)[t] else []) + [obj]
      ensures forall u :: u != t ==> (u in collectedObjects <==> u in old(collectedObjects))
      ensures forall u :: u != t && u in collectedObjects ==> collectedObjects[u] == old(collectedObjects)[u]
      ensures t in old(collectedObjectPosition) ==> collectedObjectPosition == old(collectedObjectPosition)
      ensures t !in old(collectedObjectPosition) ==>
                collectedObjectPosition == old(collectedObjectPosition)[t := |old(collectedObjectPosition)|]
      ensures placement == Placement(collectedObjectPosition[t], |collectedObjects[t]|)
    {
      TracksAfterCollect(collectedObjects, collectedObjectPosition, pickups, obj, t);
      var stack := if t in collectedObjects then collectedObjects[t] else [];
      collectedObjects := collectedObjects[t := stack + [obj]];
      if t !in collectedObjectPosition {
        collectedObjectPosition := collectedObjectPosition[t := |collectedObjectPosition|];
      }
      pickups := pickups + [Pickup(obj, t)];
      placement := Placement(collectedObjectPosition[t], |collectedObjects[t]|);
    }
  }

  /** Slots are distinct across categories and cover 0 .. (number of categories - 1). */
  lemma SlotsDistinct(p: Player)
    requires p.Valid()
    ensures forall a, b :: a in p.collectedObjectPosition && b in p.collectedObjectPosition && a != b ==>
              p.collectedObjectPosition[a] != p.collectedObjectPosition[b]
    ensures forall a :: a in p.collectedObjectPosition ==> p.collectedObjectPosition[a] < |p.collectedObjectPosition|
  {
    var order := FirstSeen(p.pickups);
    SlotCount(p.collectedObjects, p.collectedObjectPosition, p.pickups);
    FirstSeenDistinct(p.pickups);
    forall a | a in p.collectedObjectPosition
      ensures p.collectedObjectPosition[a] < |order| && order[p.collectedObjectPosition[a]] == a
    {
      var i :| 0 <= i < |order| && order[i] == a;
    }
  }
}
