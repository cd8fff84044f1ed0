/**
 The bounded single-producer, single-consumer queue: a power-of-two buffer
 indexed by two 64-bit counters that only ever grow, and may wrap.
 */
module RingBuffer {
  import opened Bits
  import opened Options
  import opened Words

  /** The test on the unsigned difference of the two counters that `push` makes. */
  predicate Full(write: u64, read: u64, capacity: nat) {
    Wrap64(write - read) >= capacity
  }

  /** The slot of a counter value: its low bits. */
  function SlotOf(index: u64, capacity: nat): (slot: nat)
    requires capacity >= 1
    ensures slot < capacity
  {
    MaskNotAbove(index, capacity - 1);
    BitAnd(index, capacity - 1)
  }

  /** Where the value of a true count lives. */
  function TrueSlot(count: nat, capacity: nat): (slot: nat)
    requires capacity >= 1
    ensures slot < capacity
  {
    count % capacity
  }

  /** A size the 64-bit rounding can produce. */
  ghost predicate RingSize(capacity: nat) {
    exists k: nat :: k <= 63 && capacity == Pow2(k)
  }

  lemma RoundedIsRingSize(hint: nat)
    requires hint <= 0x8000_0000_0000_0000
    ensures RingSize(RoundUpToPowerOfTwo(hint)) && RoundUpToPowerOfTwo(hint) >= 1
  {
    hide BitWidth;
    RoundUpIsLeastPowerOfTwo(hint);
    var k: nat :| RoundUpToPowerOfTwo(hint) == Pow2(k);
    Pow2Of64();
    assert Pow2(64) == 2 * Pow2(63);
    if k > 63 {
      Pow2Monotone(64, k);
      assert false;
    }
    Pow2Monotone(0, k);
  }

  /**
   The counters survive wrap-around: whatever the true numbers of writes and
   reads, the slot is the true count modulo the capacity, the full test compares
   the true occupancy with the capacity, and equal counters mean no occupancy.
   */
  lemma CountersAreExact(write: nat, read: nat, capacity: nat)
    requires RingSize(capacity) && read <= write <= read + capacity
    ensures capacity >= 1
    ensures SlotOf(Wrap64(write), capacity) == TrueSlot(write, capacity)
    ensures Full(Wrap64(write), Wrap64(read), capacity) <==> write - read == capacity
    ensures Wrap64(read) == Wrap64(write) <==> read == write
  {
    hide BitAnd, Pow2, Wrap64;
    var k: nat :| k <= 63 && capacity == Pow2(k);
    RingSizeBounds(k);
    MaskOfWrappedIndex(write, k);
    WrappedDifference(write, read);
    if Wrap64(read) == Wrap64(write) {
      WrappedDifference(read, read);
    }
  }

  lemma RingSizeBounds(k: nat)
    requires k <= 63
    ensures 1 <= Pow2(k) <= 0x8000_0000_0000_0000
  {
    Pow2Monotone(0, k);
    Pow2Monotone(k, 63);
    Pow2Of64();
    assert Pow2(64) == 2 * Pow2(63);
  }

  lemma NextCounter(count: nat)
    ensures Wrap64(Wrap64(count) as int + 1) == Wrap64(count + 1)
  {
  }

  /** Counts less than a full buffer apart have different slots. */
  lemma SlotsDiffer(i: nat, j: nat, capacity: nat)
    requires i < j < i + capacity
    ensures TrueSlot(i, capacity) != TrueSlot(j, capacity)
  {
    if i % capacity == j % capacity {
      assert j - i == capacity * (j / capacity - i / capacity);
      MultipleNotBetween(capacity, j / capacity - i / capacity);
    }
  }

  lemma MultipleNotBetween(c: nat, k: int)
    requires c >= 1
    ensures !(0 < c * k < c)
  {
    if k >= 1 {
      MulGrows(c, k);
    } else {
      assert c * k == -(c * -k);
      assert c * -k >= 0;
    }
  }

  class SpscRingBuffer<T(0)> {
    const capacity: nat
    const buffer: array<T>
    var writeIndex: u64
    var readIndex: u64

    /** Every value ever pushed, and how many of them have been popped. */
    ghost var pushed: seq<T>
    ghost var popped: nat

    ghost predicate HoldsPushed(i: nat)
      reads this, buffer
    {
      && 1 <= capacity == buffer.Length
      && i < |pushed|
      && buffer[TrueSlot(i, capacity)] == pushed[i]
    }

    ghost predicate Valid()
      reads this, buffer
    {
      && RingSize(capacity)
      && buffer.Length == capacity
      && popped <= |pushed| <= popped + capacity
      && writeIndex == Wrap64(|pushed|)
      && readIndex == Wrap64(popped)
      && forall i: nat :: popped <= i < |pushed| ==> HoldsPushed(i)
    }

    ghost function Contents(): seq<T>
      reads this, buffer
      requires Valid()
    {
      pushed[popped..]
    }

    constructor (hint: nat)
      requires hint <= 0x8000_0000_0000_0000
      ensures Valid() && fresh(buffer)
      ensures capacity == RoundUpToPowerOfTwo(hint) && Contents() == []
    {
      hide RoundUpToPowerOfTwo, RingSize;
      RoundedIsRingSize(hint);
      capacity := RoundUpToPowerOfTwo(hint);
      buffer := new T[RoundUpToPowerOfTwo(hint)];
      writeIndex, readIndex := 0, 0;
      pushed, popped := [], 0;
    }

    /** Fails, changing nothing, exactly when `capacity` values are waiting. */
    method Push(value: T) returns (ok: bool)
      requires Valid()
      modifies this, buffer
      ensures Valid() && popped == old(popped)
      ensures ok <==> |old(Contents())| < capacity
      ensures Contents() == if ok then old(Contents()) + [value] else old(Contents())
      ensures pushed == if ok then old(pushed) + [value] else old(pushed)
    {
      hide Full, SlotOf, TrueSlot, RingSize, Wrap64;
      CountersAreExact(|pushed|, popped, capacity);
      NextCounter(|pushed|);
      var write := writeIndex;
      var read := readIndex;
      if Full(write, read, capacity) {
        return false;
      }
      buffer[SlotOf(write, capacity)] := value;
      writeIndex := Wrap64(write as int + 1);
      pushed := pushed + [value];
      forall i: nat | popped <= i < |pushed|
        ensures HoldsPushed(i)
      {
        if i < |old(pushed)| {
          assert old(HoldsPushed(i));
          SlotsDiffer(i, |old(pushed)|, capacity);
        }
      }
      assert Contents() == pushed[popped..];
      assert pushed[popped..] == old(pushed)[popped..] + [value];
      return true;
    }

    /** Fails, changing nothing, exactly when no value is waiting; otherwise takes the oldest. */
    method Pop() returns (out: Option<T>)
      requires Valid()
      modifies this
      ensures Valid() && pushed == old(pushed)
      ensures out.None? <==> old(Contents()) == []
      ensures out.None? ==> Contents() == old(Contents()) && popped == old(popped)
      ensures out.Some? ==> old(Contents()) == [out.value] + Contents() && popped == old(popped) + 1
    {
      hide Full, SlotOf, TrueSlot, RingSize, Wrap64;
      CountersAreExact(|pushed|, popped, capacity);
      CountersAreExact(popped, popped, capacity);
      NextCounter(popped);
      var read := readIndex;
      var write := writeIndex;
      if read == write {
        assert pushed[popped..] == [];
        return None;
      }
      assert HoldsPushed(popped);
      out := Some(buffer[SlotOf(read, capacity)]);
      assert out.value == pushed[popped];
      readIndex := Wrap64(read as int + 1);
      popped := popped + 1;
      forall i: nat | popped <= i < |pushed|
        ensures HoldsPushed(i)
      {
        assert old(HoldsPushed(i));
      }
      assert Contents() == pushed[popped..];
      assert pushed[popped - 1..] == [pushed[popped - 1]] + pushed[popped..];
    }
  }
}
