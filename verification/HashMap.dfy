/**
 The fixed-capacity open-addressing hash map: linear probing over Empty,
 Occupied and Tombstone slots, never rehashed. It is proved against the finite
 map it stands for, for an arbitrary hash function.
 */
module HashMap {
  import opened Bits
  import opened Options
  import opened Words

  datatype Slot<+V> = Empty | Tombstone | Occupied(key: u64, value: V) {
    function State(): SlotState {
      match this
      case Empty => IsEmpty
      case Tombstone => IsTombstone
      case Occupied(_, _) => IsOccupied
    }
  }

  datatype SlotState = IsEmpty | IsTombstone | IsOccupied

  /** How many slots are in a given state. */
  function Count<V>(s: seq<Slot<V>>, state: SlotState): nat {
    if s == [] then 0
    else Count(s[..|s| - 1], state) + (if s[|s| - 1].State() == state then 1 else 0)
  }

  lemma {:induction false} CountUpdate<V>(s: seq<Slot<V>>, i: nat, x: Slot<V>, state: SlotState)
    requires i < |s|
    ensures Count(s[i := x], state) ==
            Count(s, state) - (if s[i].State() == state then 1 else 0) + (if x.State() == state then 1 else 0)
  {
    var last := |s| - 1;
    if i == last {
      assert s[i := x][..last] == s[..last];
    } else {
      assert s[i := x][..last] == s[..last][i := x];
      CountUpdate(s[..last], i, x, state);
    }
  }

  lemma {:induction false} CountBounds<V>(s: seq<Slot<V>>, state: SlotState)
    ensures Count(s, state) <= |s|
    ensures (forall i :: 0 <= i < |s| ==> s[i].State() == state) ==> Count(s, state) == |s|
    ensures (forall i :: 0 <= i < |s| ==> s[i].State() != state) ==> Count(s, state) == 0
  {
    if s != [] {
      CountBounds(s[..|s| - 1], state);
    }
  }

  lemma {:induction false} FreeSlotNotCounted<V>(s: seq<Slot<V>>, i: nat)
    requires i < |s| && !s[i].Occupied?
    ensures Count(s, IsOccupied) < |s|
  {
    CountBounds(s[..|s| - 1], IsOccupied);
    if i < |s| - 1 {
      FreeSlotNotCounted(s[..|s| - 1], i);
    }
  }

  lemma {:induction false} CountsPartition<V>(s: seq<Slot<V>>)
    ensures Count(s, IsEmpty) + Count(s, IsTombstone) + Count(s, IsOccupied) == |s|
  {
    if s != [] {
      CountsPartition(s[..|s| - 1]);
    }
  }

  function ProbeStart(hash: u64 -> u64, capacity: nat, key: u64): (start: nat)
    requires IsPow2(capacity)
    ensures start < capacity
  {
    StartInRange(hash(key), capacity);
    BitAnd(hash(key), capacity - 1)
  }

  lemma StartInRange(h: u64, capacity: nat)
    requires IsPow2(capacity)
    ensures BitAnd(h, capacity - 1) < capacity
  {
    hide BitAnd;
    MaskNotAbove(h, capacity - 1);
  }

  ghost function ProbeAt(hash: u64 -> u64, capacity: nat, key: u64, d: nat): (i: nat)
    requires IsPow2(capacity) && d <= capacity
    ensures i < capacity
  {
    var i := ProbeStart(hash, capacity, key) + d;
    if i < capacity then i else i - capacity
  }

  /** Stepping to the next slot is stepping the probe distance. */
  lemma NextProbe(hash: u64 -> u64, capacity: nat, key: u64, d: nat)
    requires IsPow2(capacity) && d < capacity
    ensures BitAnd(ProbeAt(hash, capacity, key, d) + 1, capacity - 1) == ProbeAt(hash, capacity, key, d + 1)
  {
    hide BitAnd, ProbeStart;
    var k: nat :| capacity == Pow2(k);
    var i := ProbeAt(hash, capacity, key, d);
    MaskIsRemainder(i + 1, k);
    if i + 1 == capacity {
      ModIsUnique(i + 1, capacity, 1, 0);
    } else {
      ModIsUnique(i + 1, capacity, 0, i + 1);
    }
  }

  /** Every slot is looked at by some probe of a full round. */
  lemma SomeProbe(hash: u64 -> u64, capacity: nat, key: u64, i: nat) returns (d: nat)
    requires IsPow2(capacity) && i < capacity
    ensures d < capacity && ProbeAt(hash, capacity, key, d) == i
  {
    var s := ProbeStart(hash, capacity, key);
    d := if i >= s then i - s else i - s + capacity;
  }

  /**
   A table's slots with, for each key, how many probes past its start it is
   stored. Everything the probe loops rely on is stated on this value.
   */
  datatype Table<V> = MakeTable(slots: seq<Slot<V>>, hash: u64 -> u64, dist: map<u64, nat>) {
    ghost predicate Shape() {
      IsPow2(|slots|)
    }

    /** The slot that the `d`-th probe for `key` looks at. */
    ghost function At(key: u64, d: nat): (i: nat)
      requires Shape() && d <= |slots|
      ensures i < |slots|
    {
      ProbeAt(hash, |slots|, key, d)
    }

    /** Every key is stored at its recorded distance. */
    ghost predicate Stored()
      requires Shape()
    {
      forall k :: k in dist ==>
        && dist[k] < |slots|
        && slots[At(k, dist[k])].Occupied?
        && slots[At(k, dist[k])].key == k
    }

    /** No probe that comes before a key's own slot meets an Empty slot. */
    ghost predicate Reachable()
      requires Shape() && Stored()
    {
      forall k, d: nat {:trigger At(k, d)} :: k in dist && d < dist[k] ==> slots[At(k, d)] != Empty
    }

    /** No other slot is occupied, so no key is stored twice. */
    ghost predicate Exact()
      requires Shape() && Stored()
    {
      forall i :: 0 <= i < |slots| && slots[i].Occupied? ==>
        slots[i].key in dist && At(slots[i].key, dist[slots[i].key]) == i
    }

    ghost predicate Inv() {
      Shape() && Stored() && Reachable() && Exact() && |dist| == Count(slots, IsOccupied)
    }

    /** The finite map the table stands for. */
    ghost function Contents(): map<u64, V>
      requires Inv()
    {
      map k | k in dist :: slots[At(k, dist[k])].value
    }

    /** A probe for `key` meets a tombstone, at distance `d`, before it meets an Empty slot. */
    ghost predicate TombstoneReachedAt(key: u64, d: nat)
      requires Shape() && d <= |slots|
    {
      slots[At(key, d)] == Tombstone && NoEmptyBefore(key, d)
    }

    ghost predicate NoEmptyBefore(key: u64, d: nat)
      requires Shape() && d <= |slots|
    {
      forall e: nat {:trigger At(key, e)} :: e < d ==> slots[At(key, e)] != Empty
    }

    ghost predicate TombstoneOnPath(key: u64)
      requires Shape()
    {
      exists d: nat :: d < |slots| && TombstoneReachedAt(key, d)
    }

    /** A path of occupied slots that ends in an Empty one has no tombstone to reuse. */
    lemma NoTombstoneOnPath(key: u64, d: nat)
      requires Shape() && d < |slots|
      requires slots[At(key, d)] == Empty
      requires forall e: nat {:trigger At(key, e)} :: e < d ==> slots[At(key, e)].Occupied?
      ensures !TombstoneOnPath(key)
    {
      forall e: nat | e < |slots|
        ensures !TombstoneReachedAt(key, e)
      {
        if e > d {
          assert slots[At(key, d)] == Empty;
        }
      }
    }

    /** A full round of probes that met only occupied slots has seen every slot. */
    lemma AllProbed(key: u64)
      requires Shape()
      requires forall d: nat {:trigger At(key, d)} :: d < |slots| ==> slots[At(key, d)].Occupied?
      ensures Count(slots, IsOccupied) == |slots|
    {
      hide ProbeAt, IsPow2, Count;
      forall i | 0 <= i < |slots|
        ensures slots[i].State() == IsOccupied
      {
        var d := SomeProbe(hash, |slots|, key, i);
        assert At(key, d) == i;
      }
      CountBounds(slots, IsOccupied);
    }

    /** Writing a new key into a free slot of its probe path adds exactly that key. */
    lemma PlaceAdds(key: u64, value: V, d: nat)
      requires Inv()
      requires key !in dist
      requires d < |slots| && !slots[At(key, d)].Occupied? && NoEmptyBefore(key, d)
      ensures var t := MakeTable(slots[At(key, d) := Occupied(key, value)], hash, dist[key := d]);
              t.Inv() && t.Contents() == Contents()[key := value]
    {
      hide ProbeAt, IsPow2, Count;
      var i := At(key, d);
      var t := MakeTable(slots[i := Occupied(key, value)], hash, dist[key := d]);
      CountUpdate(slots, i, Occupied(key, value), IsOccupied);
      assert t.Stored();
      forall k, e: nat {:trigger t.At(k, e)} | k in t.dist && e < t.dist[k]
        ensures t.slots[t.At(k, e)] != Empty
      {
        assert t.At(k, e) == At(k, e);
      }
      assert t.Exact();
    }

    /** Burying the slot of a key removes exactly that key and leaves a tombstone to reuse. */
    lemma BuryRemoves(key: u64)
      requires Inv()
      requires key in dist
      ensures var t := MakeTable(slots[At(key, dist[key]) := Tombstone], hash, dist - {key});
              t.Inv() && t.Contents() == Contents() - {key} && t.TombstoneOnPath(key)
    {
      hide ProbeAt, IsPow2, Count;
      var d := dist[key];
      var i := At(key, d);
      var t := MakeTable(slots[i := Tombstone], hash, dist - {key});
      CountUpdate(slots, i, Tombstone, IsOccupied);
      assert t.Stored();
      forall k, e: nat {:trigger t.At(k, e)} | k in t.dist && e < t.dist[k]
        ensures t.slots[t.At(k, e)] != Empty
      {
        assert t.At(k, e) == At(k, e);
      }
      assert t.Exact();
      forall e: nat {:trigger t.At(key, e)} | e < d
        ensures t.slots[t.At(key, e)] != Empty
      {
        assert t.At(key, e) == At(key, e);
      }
      assert t.TombstoneReachedAt(key, d);
    }
  }

  class OpenAddressingHashMap<V> {
    const capacity: nat
    const mask: nat
    const hash: u64 -> u64
    const slots: array<Slot<V>>
    var size: nat
    var tombstones: nat

    ghost var dist: map<u64, nat>

    ghost function View(): Table<V>
      reads this, slots
    {
      MakeTable(slots[..], hash, dist)
    }

    ghost predicate Valid()
      reads this, slots
    {
      && slots.Length == capacity
      && mask == capacity - 1
      && View().Inv()
      && size == |dist|
      && tombstones == Count(slots[..], IsTombstone)
    }

    ghost function Contents(): map<u64, V>
      requires Valid()
      reads this, slots
    {
      View().Contents()
    }

    ghost function Empties(): nat
      reads this, slots
    {
      Count(slots[..], IsEmpty)
    }

    ghost predicate TombstoneOnPath(key: u64)
      requires Valid()
      reads this, slots
    {
      View().TombstoneOnPath(key)
    }

    constructor (capacityHint: u64, hash: u64 -> u64)
      requires capacityHint <= 0x8000_0000_0000_0000  // beyond it the shift in the rounding is undefined
      ensures Valid() && fresh(slots)
      ensures Contents() == map[] && size == 0
      ensures capacity == RoundUpToPowerOfTwo(capacityHint)
      ensures Empties() == capacity
    {
      hide RoundUpToPowerOfTwo, IsPow2;
      var cap := RoundUpToPowerOfTwo(capacityHint);
      RoundUpIsLeastPowerOfTwo(capacityHint);
      capacity := cap;
      mask := cap - 1;
      this.hash := hash;
      slots := new Slot<V>[cap](_ => Empty);
      size, tombstones := 0, 0;
      dist := map[];
      new;
      CountBounds(slots[..], IsOccupied);
      CountBounds(slots[..], IsTombstone);
      CountBounds(slots[..], IsEmpty);
    }

    method FirstProbe(key: u64) returns (index: nat)
      requires Valid()
      ensures index == View().At(key, 0)
    {
      hide BitAnd, IsPow2, Count;
      index := BitAnd(hash(key), mask);
      StartInRange(hash(key), capacity);
    }

    /** The probe loop that `Find` and `Erase` share: the slot holding `key`, if there is one. */
    method Locate(key: u64) returns (where: Option<nat>)
      requires Valid()
      ensures where == if key in dist then Some(View().At(key, dist[key])) else None
    {
      hide ProbeAt, IsPow2, Count, BitAnd;
      ghost var table := View();
      var index := FirstProbe(key);
      var probes := 0;
      while probes < capacity
        invariant 0 <= probes <= capacity
        invariant index == table.At(key, probes)
        invariant key in dist ==> probes <= dist[key]
      {
        var slot := slots[index];
        if slot.Empty? {
          return None;
        }
        if slot.Occupied? && slot.key == key {
          return Some(index);
        }
        NextProbe(hash, capacity, key, probes);
        index := BitAnd(index + 1, mask);
        probes := probes + 1;
      }
      return None;
    }

    method Find(key: u64) returns (found: Option<V>)
      requires Valid()
      ensures found == if key in Contents() then Some(Contents()[key]) else None
    {
      var where := Locate(key);
      if where.None? {
        return None;
      }
      return Some(slots[where.value].value);
    }

    /**
     The probe loop of `Insert`: where a new key goes, the first tombstone on its
     path being preferred to the Empty slot that ends it. `d` is that slot's distance.
     */
    method FindFreeSlot(key: u64) returns (target: Option<nat>, wasTombstone: bool, ghost d: nat)
      requires Valid()
      ensures target.None? <==> key in dist || size == capacity
      ensures target.Some? ==>
                && d < capacity && target.value == View().At(key, d)
                && View().NoEmptyBefore(key, d)
                && slots[target.value] == (if wasTombstone then Tombstone else Empty)
                && (wasTombstone <==> TombstoneOnPath(key))
    {
      hide ProbeAt, IsPow2, Count, BitAnd;
      ghost var table := View();
      var index := FirstProbe(key);
      var firstTombstone := None;
      d := 0;
      var probes := 0;
      while probes < capacity
        invariant 0 <= probes <= capacity
        invariant index == table.At(key, probes)
        invariant key in dist ==> probes <= dist[key]
        invariant table.NoEmptyBefore(key, probes)
        invariant firstTombstone.None? ==>
                    forall e: nat {:trigger table.At(key, e)} :: e < probes ==> table.slots[table.At(key, e)].Occupied?
        invariant firstTombstone.Some? ==>
                    d < probes && firstTombstone.value == table.At(key, d) && table.TombstoneReachedAt(key, d)
      {
        var slot := slots[index];
        if slot.Empty? {
          FreeSlotMeansNotFull(index);
          if firstTombstone.Some? {
            return firstTombstone, true, d;
          }
          table.NoTombstoneOnPath(key, probes);
          return Some(index), false, probes;
        }
        if slot.Tombstone? {
          if firstTombstone.None? {
            firstTombstone := Some(index);
            d := probes;
          }
        } else if slot.key == key {
          return None, false, 0;
        }
        NextProbe(hash, capacity, key, probes);
        index := BitAnd(index + 1, mask);
        probes := probes + 1;
      }
      if firstTombstone.Some? {
        FreeSlotMeansNotFull(firstTombstone.value);
        return firstTombstone, true, d;
      }
      table.AllProbed(key);
      return None, false, 0;
    }

    lemma FreeSlotMeansNotFull(index: nat)
      requires Valid()
      requires index < capacity && !slots[index].Occupied?
      ensures size < capacity
    {
      FreeSlotNotCounted(slots[..], index);
    }

    method Insert(key: u64, value: V) returns (ok: bool)
      requires Valid()
      modifies this, slots
      ensures Valid()
      // it fails exactly when the key is present or every slot is occupied
      ensures ok <==> key !in old(Contents()) && old(size) < capacity
      ensures Contents() == if ok then old(Contents())[key := value] else old(Contents())
      ensures size == old(size) + (if ok then 1 else 0)
      // the first tombstone on the probe path is reused, otherwise an Empty slot is spent
      ensures tombstones == old(tombstones) - (if ok && old(TombstoneOnPath(key)) then 1 else 0)
      ensures Empties() == old(Empties()) - (if ok && !old(TombstoneOnPath(key)) then 1 else 0)
    {
      CountBounds(slots[..], IsOccupied);
      var target, wasTombstone, d := FindFreeSlot(key);
      if target.None? {
        return false;
      }
      Place(target.value, key, value, wasTombstone, d);
      return true;
    }

    /** Writes a new key into a free slot on its probe path, `d` probes past its start. */
    method Place(index: nat, key: u64, value: V, wasTombstone: bool, ghost d: nat)
      requires Valid()
      requires key !in dist
      requires d < capacity && index == View().At(key, d) && View().NoEmptyBefore(key, d)
      requires slots[index] == if wasTombstone then Tombstone else Empty
      modifies this, slots
      ensures Valid()
      ensures Contents() == old(Contents())[key := value]
      ensures old(size) < capacity
      ensures size == old(size) + 1
      ensures tombstones == old(tombstones) - (if wasTombstone then 1 else 0)
      ensures Empties() == old(Empties()) - (if wasTombstone then 0 else 1)
    {
      hide ProbeAt, IsPow2, Count, BitAnd;
      ghost var table := View();
      table.PlaceAdds(key, value, d);
      CountUpdate(slots[..], index, Occupied(key, value), IsTombstone);
      CountUpdate(slots[..], index, Occupied(key, value), IsEmpty);
      CountUpdate(slots[..], index, Occupied(key, value), IsOccupied);
      slots[index] := Occupied(key, value);
      dist := dist[key := d];
      assert slots[..] == table.slots[index := Occupied(key, value)];
      CountBounds(slots[..], IsOccupied);
      size := size + 1;
      if wasTombstone {
        tombstones := tombstones - 1;
      }
    }

    method Erase(key: u64) returns (ok: bool)
      requires Valid()
      modifies this, slots
      ensures Valid()
      ensures ok <==> key in old(Contents())
      ensures Contents() == old(Contents()) - {key}
      ensures size == old(size) - (if ok then 1 else 0)
      ensures tombstones == old(tombstones) + (if ok then 1 else 0)
      ensures Empties() == old(Empties())
      ensures ok ==> TombstoneOnPath(key)
    {
      var where := Locate(key);
      if where.None? {
        return false;
      }
      Bury(where.value, key);
      return true;
    }

    /** Turns the slot of a present key into a tombstone. */
    method Bury(index: nat, key: u64)
      requires Valid()
      requires key in dist && index == View().At(key, dist[key])
      modifies this, slots
      ensures Valid()
      ensures Contents() == old(Contents()) - {key}
      ensures size == old(size) - 1 && tombstones == old(tombstones) + 1
      ensures Empties() == old(Empties())
      ensures TombstoneOnPath(key)
    {
      hide ProbeAt, IsPow2, Count, BitAnd;
      ghost var table := View();
      table.BuryRemoves(key);
      CountUpdate(slots[..], index, Tombstone, IsTombstone);
      CountUpdate(slots[..], index, Tombstone, IsEmpty);
      slots[index] := Tombstone;
      dist := dist - {key};
      assert slots[..] == table.slots[index := Tombstone];
      size := size - 1;
      tombstones := tombstones + 1;
    }

    /** Erasing and reinserting a key does not wear the table out. */
    method EraseThenReinsert(key: u64, value: V) returns (ok: bool)
      requires Valid()
      requires key in Contents()
      modifies this, slots
      ensures Valid() && ok
      ensures Contents() == old(Contents())[key := value]
      ensures size == old(size) && tombstones == old(tombstones) && Empties() == old(Empties())
    {
      CountBounds(slots[..], IsOccupied);
      ghost var before := Contents();
      var erased := Erase(key);
      assert (before - {key})[key := value] == before[key := value];
      ok := Insert(key, value);
    }
  }
}
