/**
 The ring buffer that puts out-of-order chunks back into sequence order.

 A `Window` is what the ring means: the next sequence number to deliver and the
 buffered items by number. Every operation of the class is proved to have the
 obvious effect on the window, wherever the head of the ring happens to be.
 */
module ReorderBuffers {
  import opened Prelude

  datatype Window<T> = Window(next: nat, pending: map<nat, T>, capacity: nat)

  predicate Fits<T>(w: Window<T>, sequence: nat) {
    w.next <= sequence < w.next + w.capacity
  }

  /** The ring index `off` places after `head`. */
  function Wrap(head: nat, off: nat, cap: nat): (i: nat)
    requires head < cap && off < cap
    ensures i < cap
  {
    if head + off < cap then head + off else head + off - cap
  }

  lemma WrapIsMod(head: nat, off: nat, cap: nat)
    requires head < cap && off < cap
    ensures (head + off) % cap == Wrap(head, off, cap)
  {
    var q, r := (head + off) / cap, (head + off) % cap;
    assert q * cap + r == head + off;
    ScaleBounds(q, cap);
  }

  /** The ring index after `head`. */
  function Following(head: nat, cap: nat): (i: nat)
    requires head < cap
    ensures i < cap
  {
    if head + 1 < cap then head + 1 else 0
  }

  lemma FollowingIsMod(head: nat, cap: nat)
    requires head < cap
    ensures (head + 1) % cap == Following(head, cap)
  {
    if cap > 1 {
      WrapIsMod(head, 1, cap);
    }
  }

  lemma ScaleBounds(q: int, c: nat)
    ensures q >= 2 ==> q * c >= 2 * c
    ensures q < 0 ==> q * c + c <= 0
  {
    assert q * c == 2 * c + (q - 2) * c;
    assert q * c + c == (q + 1) * c;
  }

  /** The slot `off` places after the head. */
  function Slot<T>(ring: seq<Option<T>>, head: nat, off: nat): Option<T>
    requires head < |ring| && off < |ring|
  {
    ring[Wrap(head, off, |ring|)]
  }

  /** What the window says about the slot `off` places after the head. */
  function Expected<T>(w: Window<T>, off: nat): Option<T> {
    if w.next + off in w.pending then Some(w.pending[w.next + off]) else None
  }

  ghost predicate SlotsOk<T>(ring: seq<Option<T>>, head: nat, w: Window<T>)
    requires head < |ring|
  {
    forall off :: 0 <= off < |ring| ==> Slot(ring, head, off) == Expected(w, off)
  }

  /**
   The ring invariant: the slots hold exactly the window's items, `count` counts
   them, and `highWater` bounds every occupied offset (which is what makes
   resizing lossless).
   */
  ghost predicate RingOk<T>(ring: seq<Option<T>>, head: nat, w: Window<T>, count: int, highWater: int) {
    && head < |ring| == w.capacity
    && 0 <= highWater <= |ring|
    && count == |w.pending|
    && (forall s :: s in w.pending ==> w.next <= s < w.next + highWater)
    && SlotsOk(ring, head, w)
  }

  lemma StoreStep<T>(ring: seq<Option<T>>, head: nat, w: Window<T>, count: nat, highWater: nat, off: nat, item: T)
    requires RingOk(ring, head, w, count, highWater) && off < |ring|
    ensures
      var idx := Wrap(head, off, |ring|);
      RingOk(ring[idx := Some(item)], head, w.(pending := w.pending[w.next + off := item]),
             if ring[idx].None? then count + 1 else count,
             if off + 1 > highWater then off + 1 else highWater)
  {
    var ring', w' := ring[Wrap(head, off, |ring|) := Some(item)], w.(pending := w.pending[w.next + off := item]);
    assert Slot(ring, head, off) == Expected(w, off);
    forall o | 0 <= o < |ring| ensures Slot(ring', head, o) == Expected(w', o) {
      assert o != off ==> Wrap(head, o, |ring|) != Wrap(head, off, |ring|);
      assert Slot(ring, head, o) == Expected(w, o);
    }
  }

  lemma ClearStep<T>(ring: seq<Option<T>>, head: nat, w: Window<T>, count: nat, highWater: nat, off: nat)
    requires RingOk(ring, head, w, count, highWater) && off < |ring|
    ensures
      var slot := ring[Wrap(head, off, |ring|)];
      && slot == Expected(w, off)
      && RingOk(ring[Wrap(head, off, |ring|) := None], head, w.(pending := w.pending - {w.next + off}),
                if slot.Some? then count - 1 else count, highWater)
  {
    assert Slot(ring, head, off) == Expected(w, off);
    RemoveCount(w.pending, w.next + off);
    ClearedSlots(ring, head, w, off);
  }

  lemma ClearedSlots<T>(ring: seq<Option<T>>, head: nat, w: Window<T>, off: nat)
    requires head < |ring| && off < |ring| && SlotsOk(ring, head, w)
    ensures SlotsOk(ring[Wrap(head, off, |ring|) := None], head, w.(pending := w.pending - {w.next + off}))
  {
    var ring', w' := ring[Wrap(head, off, |ring|) := None], w.(pending := w.pending - {w.next + off});
    forall o | 0 <= o < |ring| ensures Slot(ring', head, o) == Expected(w', o) {
      assert o != off ==> Wrap(head, o, |ring|) != Wrap(head, off, |ring|);
      assert Slot(ring, head, o) == Expected(w, o);
    }
  }

  lemma RemoveCount<T>(m: map<nat, T>, k: nat)
    ensures |m - {k}| == if k in m then |m| - 1 else |m|
  {
    if k in m {
      assert m == (m - {k})[k := m[k]];
    } else {
      assert m - {k} == m;
    }
  }

  lemma AdvanceStep<T>(ring: seq<Option<T>>, head: nat, w: Window<T>, count: nat, highWater: nat)
    requires RingOk(ring, head, w, count, highWater)
    ensures ring[head] == Expected(w, 0)
    ensures ring[head].Some? ==>
      && 0 < count
      && RingOk(ring[head := None], Following(head, |ring|), Window(w.next + 1, w.pending - {w.next}, w.capacity),
                count - 1, if count == 1 || highWater == 0 then 0 else highWater - 1)
  {
    assert Slot(ring, head, 0) == Expected(w, 0);
    if ring[head].Some? {
      var ring', head' := ring[head := None], Following(head, |ring|);
      var w' := Window(w.next + 1, w.pending - {w.next}, w.capacity);
      forall off | 0 <= off < |ring|
        ensures Slot(ring', head', off) == Expected(w', off)
      {
        if off + 1 < |ring| {
          assert Wrap(head', off, |ring|) == Wrap(head, off + 1, |ring|) != head;
          assert Slot(ring, head, off + 1) == Expected(w, off + 1);
        } else {
          assert Wrap(head', off, |ring|) == head;
          assert w.next + |ring| !in w.pending;
        }
      }
    }
  }

  lemma ResizeStep<T>(ring: seq<Option<T>>, ring': seq<Option<T>>, head: nat, w: Window<T>, count: nat, highWater: nat)
    requires RingOk(ring, head, w, count, highWater)
    requires 0 < |ring'| && highWater <= |ring'|
    requires forall off :: 0 <= off < |ring'| ==> ring'[off] == if off < |ring| then Slot(ring, head, off) else None
    ensures RingOk(ring', 0, w.(capacity := |ring'|), count, highWater)
  {
  }

  /** The high-water mark after an item at this offset. */
  function Reach(highWater: nat, offset: int): nat {
    if offset + 1 > highWater then offset + 1 else highWater
  }

  class ReorderBuffer<T> {
    var slots: array<Option<T>>
    var head: nat
    var nextExpected: nat
    var count: nat
    var capacity: nat
    var highWater: nat
    ghost var pending: map<nat, T>

    ghost function View(): Window<T>
      reads this
    {
      Window(nextExpected, pending, capacity)
    }

    ghost predicate Valid()
      reads this, slots
    {
      0 < capacity == slots.Length && RingOk(slots[..], head, View(), count, highWater)
    }

    constructor (cap: nat)
      requires 0 < cap
      ensures Valid() && fresh(slots)
      ensures View() == Window(0, map[], cap)
    {
      slots := new Option<T>[cap](_ => None);
      head, nextExpected, count, capacity, highWater := 0, 0, 0, cap, 0;
      pending := map[];
      new;
      assert RingOk(slots[..], head, View(), count, highWater);
    }

    method SlotIndex(sequence: nat) returns (idx: Option<nat>)
      requires Valid()
      ensures idx.Some? <==> Fits(View(), sequence)
      ensures idx.Some? ==> idx.value == Wrap(head, sequence - nextExpected, capacity)
    {
      if sequence < nextExpected { return None; }
      var offset := sequence - nextExpected;
      if offset >= capacity { return None; }
      WrapIsMod(head, offset, capacity);
      return Some((head + offset) % capacity);
    }

    /** Puts `item` into the slot of `sequence`; `insert` and `force_insert` share these lines. */
    method Store(sequence: nat, idx: nat, item: T)
      requires Valid() && Fits(View(), sequence)
      requires idx == Wrap(head, sequence - nextExpected, capacity)
      modifies this, slots
      ensures Valid() && slots == old(slots)
      ensures View() == old(View()).(pending := old(pending)[sequence := item])
      ensures highWater == Reach(old(highWater), sequence - old(nextExpected))
    {
      ghost var ring := slots[..];
      StoreStep(ring, head, View(), count, highWater, sequence - nextExpected, item);
      count := if slots[idx].None? then count + 1 else count;
      slots[idx] := Some(item);
      highWater := if sequence - nextExpected + 1 > highWater then sequence - nextExpected + 1 else highWater;
      pending := pending[sequence := item];
      assert slots[..] == ring[idx := Some(item)];
    }

    method Insert(sequence: nat, item: T) returns (ok: bool)
      requires Valid()
      modifies this, slots
      ensures Valid() && slots == old(slots)
      ensures ok == Fits(old(View()), sequence)
      ensures View() == if ok then old(View()).(pending := old(pending)[sequence := item]) else old(View())
      ensures highWater == if ok then Reach(old(highWater), sequence - old(nextExpected)) else old(highWater)
    {
      var idx := SlotIndex(sequence);
      if idx.None? { return false; }
      Store(sequence, idx.value, item);
      return true;
    }

    method NextInOrder() returns (item: Option<T>)
      requires Valid()
      modifies this, slots
      ensures Valid() && slots == old(slots)
      ensures item == if old(nextExpected in pending) then Some(old(pending[nextExpected])) else None
      ensures View() ==
        if item.None? then old(View())
        else Window(old(nextExpected) + 1, old(pending) - {old(nextExpected)}, old(capacity))
      ensures highWater ==
        if item.None? then old(highWater) else if |pending| == 0 || old(highWater) == 0 then 0 else old(highWater) - 1
    {
      ghost var ring := slots[..];
      AdvanceStep(ring, head, View(), count, highWater);
      item := slots[head];
      if item.None? { return; }
      slots[head] := None;
      assert slots[..] == ring[head := None];
      pending := pending - {nextExpected};
      FollowingIsMod(head, capacity);
      head := (head + 1) % capacity;
      nextExpected := nextExpected + 1;
      count := count - 1;
      highWater := if highWater == 0 || count == 0 then 0 else highWater - 1;
    }

    /**
     Reallocates the ring. The caller promises room up to the high-water mark;
     then no buffered item is lost, whether the ring grows or shrinks.
     */
    method ResizeTo(newCapacity: nat)
      requires Valid() && highWater <= newCapacity && 0 < newCapacity
      modifies this, slots
      ensures Valid() && fresh(slots)
      ensures View() == old(View()).(capacity := newCapacity) && highWater == old(highWater)
    {
      ghost var ring := slots[..];
      var newSlots := new Option<T>[newCapacity](_ => None);
      var copyLen := if capacity <= newCapacity then capacity else newCapacity;
      for i := 0 to copyLen
        invariant slots.Length == capacity && head < capacity && unchanged(this)
        invariant fresh(newSlots) && newSlots.Length == newCapacity
        invariant forall off :: 0 <= off < i ==> newSlots[off] == Slot(ring, head, off)
        invariant forall off :: i <= off < newCapacity ==> newSlots[off] == None
        invariant forall off :: i <= off < capacity ==> slots[Wrap(head, off, capacity)] == Slot(ring, head, off)
      {
        WrapIsMod(head, i, capacity);
        var src := (head + i) % capacity;
        newSlots[i] := slots[src];
        slots[src] := None;
      }
      ResizeStep(ring, newSlots[..], head, View(), count, highWater);
      slots := newSlots;
      head := 0;
      capacity := newCapacity;
    }

    /** The growth rule of a ring without an adaptive policy: at least double. */
    method Grow(minCapacity: nat)
      requires Valid()
      modifies this, slots
      ensures Valid() && fresh(slots)
      ensures capacity == if minCapacity >= 2 * old(capacity) then minCapacity else 2 * old(capacity)
      ensures View() == old(View()).(capacity := capacity) && highWater == old(highWater)
    {
      ResizeTo(if minCapacity >= capacity * 2 then minCapacity else capacity * 2);
    }

    /** Never refuses an undelivered sequence number, and never disturbs another item. */
    method ForceInsert(sequence: nat, item: T)
      requires Valid()
      modifies this, slots
      ensures Valid() && (slots == old(slots) || fresh(slots))
      ensures nextExpected == old(nextExpected)
      ensures
        var offset := sequence - nextExpected;
        capacity ==
          if offset < old(capacity) then old(capacity)
          else if offset + 1 >= 2 * old(capacity) then offset + 1 else 2 * old(capacity)
      ensures highWater ==
        if sequence >= nextExpected then Reach(old(highWater), sequence - nextExpected) else old(highWater)
      ensures pending == if sequence >= nextExpected then old(pending)[sequence := item] else old(pending)
    {
      var idx := SlotIndex(sequence);
      if idx.Some? {
        Store(sequence, idx.value, item);
      } else if sequence >= nextExpected {
        var offset := sequence - nextExpected;
        Grow(offset + 1);
        WrapIsMod(head, offset, capacity);
        Store(sequence, (head + offset) % capacity, item);
      }
    }

    method Take(sequence: nat) returns (item: Option<T>)
      requires Valid()
      modifies this, slots
      ensures Valid() && slots == old(slots)
      ensures item == if sequence in old(pending) then Some(old(pending)[sequence]) else None
      ensures View() == if item.None? then old(View()) else old(View()).(pending := old(pending) - {sequence})
      ensures highWater == old(highWater)
    {
      var idx := SlotIndex(sequence);
      if idx.None? {
        return None;
      }
      ghost var ring := slots[..];
      ClearStep(ring, head, View(), count, highWater, sequence - nextExpected);
      item := slots[idx.value];
      if item.None? { return; }
      slots[idx.value] := None;
      assert slots[..] == ring[idx.value := None];
      pending := pending - {sequence};
      count := count - 1;
    }
  }
}
