/** The ring of src/ext/rte_ring.c with the peek of src/ext/rte_ring_extra.c, one call at a time. */
module Ring {
  import opened Bits
  import opened RingCopy
  import opened RingProtocol

  lemma RoomOf(capacity: nat, tail: nat, head: nat)
    requires tail < U32 && head < U32 && Ahead(head, tail) <= capacity < U32
    ensures Ahead(capacity + tail, head) == capacity - Ahead(head, tail)
  {
    var x := if head >= tail then capacity + tail - head else capacity + tail - head - U32;
    assert 0 <= x < U32;
  }

  lemma RestOf(tail: nat, head: nat, prod: nat)
    requires tail < U32 && head < U32 && prod < U32 && Ahead(head, tail) <= Ahead(prod, tail)
    ensures Ahead(prod, head) == Ahead(prod, tail) - Ahead(head, tail)
  {
  }

  /** An index a ahead of another, and back. */
  lemma AheadBack(tail: nat, head: nat)
    requires tail < U32 && head < U32
    ensures Wrap(tail + Ahead(head, tail)) == head
  {
  }

  lemma AheadOf(tail: nat, a: nat)
    requires tail < U32 && a < U32
    ensures Ahead(Wrap(tail + a), tail) == a
  {
  }

  lemma HeadAdvanced(tail: nat, at: nat, n: nat)
    requires tail < U32 && at + n < U32
    ensures Ahead(Wrap(Wrap(tail + at) + n), tail) == at + n && Wrap(Wrap(tail + at) + n) < U32
  {
    WrapAdd(tail + at, n);
    AheadOf(tail, at + n);
  }

  /** How far the slot of object k lies behind that of object used. */
  lemma SlotsBehind(log: nat, tail: nat, used: nat, k: nat)
    requires log <= 31 && used <= Pow2(log) && k < used + Pow2(log)
    ensures Pow2(log) > 0
    ensures used <= k ==> Behind(Slot(tail + k, Pow2(log)), Wrap(tail + used), Pow2(log)) == k - used
    ensures k < used ==> Behind(Slot(tail + k, Pow2(log)), Wrap(tail + used), Pow2(log)) == k - used + Pow2(log)
  {
    var size := Pow2(log);
    var j := if used <= k then k - used else k - used + size;
    SlotIs(tail + used, j, log);
    ModShift(tail + k, size, 1);
    SlotBehind(Wrap(tail + used), j, size);
  }

  /** Enqueuing adds to the end of the window and keeps what is in it. */
  lemma WindowGrows<T>(slots: seq<T>, log: nat, tail: nat, used: nat, objs: seq<T>)
    requires log <= 31 && |slots| == Pow2(log) && |slots| > 0 && used + |objs| <= |slots|
    ensures Window(Filled(slots, Wrap(tail + used), objs), tail, used + |objs|) == Window(slots, tail, used) + objs
  {
    hide Slot, Wrap, Behind, Pow2;
    var w := Window(Filled(slots, Wrap(tail + used), objs), tail, used + |objs|);
    var v := Window(slots, tail, used) + objs;
    forall k | 0 <= k < |w| ensures w[k] == v[k] {
      SlotsBehind(log, tail, used, k);
    }
  }

  /** Moving the start of the window forward drops what it had first. */
  lemma WindowDrops<T>(slots: seq<T>, log: nat, tail: nat, k: nat, a: nat)
    requires log <= 31 && |slots| == Pow2(log) && |slots| > 0 && a <= k
    ensures Window(slots, tail, k)[a..] == Window(slots, Wrap(tail + a), k - a)
  {
    hide Slot, Wrap, Pow2;
    var w, v := Window(slots, tail, k)[a..], Window(slots, Wrap(tail + a), k - a);
    forall i | 0 <= i < |w| ensures w[i] == v[i] {
      SlotIs(tail + a, i, log);
    }
  }

  /** What DEQUEUE_PTRS finds from an index inside the window. */
  lemma WindowRead<T>(slots: seq<T>, log: nat, tail: nat, used: nat, at: nat, n: nat)
    requires log <= 31 && |slots| == Pow2(log) && |slots| > 0 && at + n <= used
    ensures Window(slots, Wrap(tail + at), n) == Window(slots, tail, used)[at..at + n]
  {
    WindowDrops(slots, log, tail, used, at);
    hide Wrap, Slot, Pow2;
    assert Window(slots, Wrap(tail + at), n) == Window(slots, Wrap(tail + at), used - at)[..n];
  }

  class RteRing<T> {
    const ring: array<T>
    ghost const log: nat
    const size: nat
    const mask: nat
    const capacity: nat
    var prodHead: nat
    var prodTail: nat
    var consHead: nat
    var consTail: nat

    /** The producer is between calls.  The consumer may be inside a block, with objects it has
        peeked and not yet released. */
    ghost predicate Valid()
      reads this
    {
      && log <= 31 && ring.Length == size == Pow2(log) && mask == size - 1 && capacity < size
      && prodHead < U32 && consHead < U32 && consTail < U32 && prodTail == prodHead
      && Ahead(consHead, consTail) <= Ahead(prodTail, consTail) <= capacity
    }

    /** The objects published and not yet released, the oldest first. */
    ghost function Contents(): (s: seq<T>)
      reads this, ring
      requires Valid()
      ensures |s| == Ahead(prodTail, consTail)
    {
      Window(ring[..], consTail, Ahead(prodTail, consTail))
    }

    /** How many of the oldest objects a block holds. */
    ghost function Peeked(): (n: nat)
      reads this, ring
      requires Valid()
      ensures n <= |Contents()|
    {
      Ahead(consHead, consTail)
    }

    /** The room of the ring in 32-bit arithmetic, as both sides compute it. */
    lemma RoomLeft()
      requires Valid()
      ensures 0 < size < U32
      ensures Ahead(capacity + consTail, prodHead) == capacity - |Contents()|
      ensures Ahead(prodTail, consHead) == |Contents()| - Peeked()
    {
      SizeBound(log);
      RoomOf(capacity, consTail, prodHead);
      RestOf(consTail, consHead, prodTail);
    }

    /** The indices from the tail on. */
    lemma ProducerAt()
      requires Valid()
      ensures prodHead == Wrap(consTail + |Contents()|) && consHead == Wrap(consTail + Peeked())
    {
      AheadBack(consTail, prodHead);
      AheadBack(consTail, consHead);
    }

    constructor (log: nat, capacity: nat, slots: array<T>)
      requires log <= 31 && slots.Length == Pow2(log) && capacity < slots.Length
      ensures Valid() && this.capacity == capacity && ring == slots && Contents() == [] && Peeked() == 0
    {
      this.log, this.capacity := log, capacity;
      ring, size, mask := slots, slots.Length, slots.Length - 1;
      prodHead, prodTail, consHead, consTail := 0, 0, 0, 0;
    }

    /** __rte_ring_move_prod_head for a single producer. */
    method MoveProdHead(wanted: nat, fixed: bool) returns (n: nat, head: nat, next: nat, room: nat)
      requires Valid()
      modifies this`prodHead
      ensures room == capacity - old(|Contents()|)
      ensures wanted <= room ==> n == wanted
      ensures wanted > room && fixed ==> n == 0
      ensures wanted > room && !fixed ==> n == room
      ensures head == old(prodHead) && prodHead == if n == 0 then head else next
      ensures next == Wrap(head + n)
    {
      RoomLeft();
      head := prodHead;
      room := Ahead(capacity + consTail, head);
      n := if wanted <= room then wanted else if fixed then 0 else room;
      next := Wrap(head + n);
      if n != 0 { prodHead := next; }
    }

    /** __rte_ring_move_cons_head for a single consumer; with fixed false it is also
        __rte_ring_move_sc_cons_head_burst. */
    method MoveConsHead(wanted: nat, fixed: bool) returns (n: nat, head: nat, next: nat, entries: nat)
      requires Valid()
      modifies this`consHead
      ensures entries == old(|Contents()| - Peeked())
      ensures wanted <= entries ==> n == wanted
      ensures wanted > entries && fixed ==> n == 0
      ensures wanted > entries && !fixed ==> n == entries
      ensures head == old(consHead) && (n > 0 ==> next == Wrap(head + n))
      ensures consHead == if n == 0 then head else next
    {
      RoomLeft();
      head := consHead;
      entries := Ahead(prodTail, head);
      n := if wanted <= entries then wanted else if fixed then 0 else entries;
      next := 0;
      if n != 0 {
        next := Wrap(head + n);
        consHead := next;
      }
    }

    /** The producer has moved its head by n and not yet published. */
    ghost predicate HeadMoved(n: nat)
      reads this
    {
      && log <= 31 && ring.Length == size == Pow2(log) && mask == size - 1 && capacity < size
      && prodTail < U32 && consHead < U32 && consTail < U32 && prodHead == Wrap(prodTail + n)
      && Ahead(consHead, consTail) <= Ahead(prodTail, consTail) && Ahead(prodTail, consTail) + n <= capacity
    }

    /** ENQUEUE_PTRS and the tail update of __rte_ring_do_enqueue. */
    method StoreAndPublish(objs: array<T>, n: nat, head: nat, next: nat, ghost used: nat)
      requires HeadMoved(n) && n <= objs.Length && objs != ring
      requires head == prodTail && next == prodHead && used == Ahead(prodTail, consTail)
      modifies this`prodTail, ring
      ensures Valid() && |Contents()| == used + n
      ensures Contents() == Window(old(ring[..]), consTail, used) + objs[..n]
    {
      SizeBound(log);
      AheadBack(consTail, head);
      HeadAdvanced(consTail, used, n);
      hide Slot, Wrap, Ahead, Pow2, Window, Filled;
      ghost var slots := ring[..];
      WindowGrows(slots, log, consTail, used, objs[..n]);
      EnqueuePtrs(ring, log, head, objs, n);
      prodTail := next;
      assert Ahead(prodTail, consTail) == used + n;
    }

    /** __rte_ring_do_enqueue for a single producer. */
    method DoEnqueue(objs: array<T>, wanted: nat, fixed: bool) returns (n: nat, free: nat)
      requires Valid() && wanted <= objs.Length && objs != ring
      modifies this`prodHead, this`prodTail, ring
      ensures Valid() && Peeked() == old(Peeked())
      ensures wanted <= capacity - old(|Contents()|) ==> n == wanted
      ensures wanted > capacity - old(|Contents()|) && fixed ==> n == 0
      ensures wanted > capacity - old(|Contents()|) && !fixed ==> n == capacity - old(|Contents()|)
      ensures free == capacity - |Contents()|
      ensures Contents() == old(Contents()) + objs[..n]
    {
      hide Slot, Wrap, Ahead, Pow2, Window, Filled;
      ghost var used := |Contents()|;
      var head, next, room;
      n, head, next, room := MoveProdHead(wanted, fixed);
      free := room - n;
      if n != 0 {
        StoreAndPublish(objs, n, head, next, used);
      }
    }

    /** Moving the consumer's head over some objects and DEQUEUE_PTRS, the first two steps of
        __rte_ring_do_dequeue and all of the peek: the objects after those already peeked, which
        stay in the ring. */
    method TakeObjects(objs: array<T>, wanted: nat, fixed: bool) returns (n: nat, next: nat, entries: nat)
      requires Valid() && wanted <= objs.Length && objs != ring
      modifies this`consHead, objs
      ensures Valid() && Contents() == old(Contents())
      ensures entries == old(|Contents()| - Peeked())
      ensures wanted <= entries ==> n == wanted
      ensures wanted > entries && fixed ==> n == 0
      ensures wanted > entries && !fixed ==> n == entries
      ensures Peeked() == old(Peeked()) + n && (n > 0 ==> next == consHead)
      ensures objs[..n] == Contents()[old(Peeked())..Peeked()] && objs[n..] == old(objs[n..])
    {
      RoomLeft();
      ProducerAt();
      ghost var at, used := Peeked(), |Contents()|;
      hide Slot, Wrap, Ahead, Pow2, Window, Filled;
      var head;
      n, head, next, entries := MoveConsHead(wanted, fixed);
      if n != 0 {
        DequeuePtrs(ring, log, head, objs, n);
        HeadAdvanced(consTail, at, n);
        WindowRead(ring[..], log, consTail, used, at, n);
      }
      assert Ahead(consHead, consTail) == at + n;
    }

    /** rte_ring_sc_dequeue_burst_peek. */
    method Peek(objs: array<T>, wanted: nat) returns (n: nat, next: nat)
      requires Valid() && wanted <= objs.Length && objs != ring
      modifies this`consHead, objs
      ensures Valid() && Contents() == old(Contents())
      ensures wanted <= old(|Contents()| - Peeked()) ==> n == wanted
      ensures wanted > old(|Contents()| - Peeked()) ==> n == old(|Contents()| - Peeked())
      ensures Peeked() == old(Peeked()) + n && (n > 0 ==> next == consHead)
      ensures objs[..n] == Contents()[old(Peeked())..Peeked()] && objs[n..] == old(objs[n..])
    {
      hide Slot, Wrap, Ahead, Pow2, Window, Filled;
      var entries;
      n, next, entries := TakeObjects(objs, wanted, false);
    }

    /** update_sc_tail, which the block macro also writes out: the objects before index next leave
        the ring. */
    method Release(next: nat)
      requires Valid() && next < U32 && Ahead(next, consTail) <= Peeked()
      modifies this`consTail
      ensures Valid() && consTail == next
      ensures Contents() == old(Contents()[Ahead(next, consTail)..])
      ensures Peeked() == old(Peeked() - Ahead(next, consTail))
    {
      RestOf(consTail, next, consHead);
      RestOf(consTail, next, prodTail);
      AheadBack(consTail, next);
      WindowDrops(ring[..], log, consTail, |Contents()|, Ahead(next, consTail));
      consTail := next;
    }

    /** __rte_ring_do_dequeue for a single consumer.  When it moves anything, its tail update also
        releases what a block that is still running had peeked. */
    method DoDequeue(objs: array<T>, wanted: nat, fixed: bool) returns (n: nat, available: nat)
      requires Valid() && wanted <= objs.Length && objs != ring
      modifies this`consHead, this`consTail, objs
      ensures Valid()
      ensures wanted <= old(|Contents()| - Peeked()) ==> n == wanted
      ensures wanted > old(|Contents()| - Peeked()) && fixed ==> n == 0
      ensures wanted > old(|Contents()| - Peeked()) && !fixed ==> n == old(|Contents()| - Peeked())
      ensures Contents() == if n == 0 then old(Contents()) else old(Contents())[old(Peeked()) + n..]
      ensures Peeked() == if n == 0 then old(Peeked()) else 0
      ensures objs[..n] == old(Contents())[old(Peeked())..old(Peeked()) + n] && objs[n..] == old(objs[n..])
      ensures available == |Contents()| - Peeked()
    {
      ghost var at, used := Peeked(), |Contents()|;
      hide Slot, Wrap, Pow2, Window, Filled;
      var next, entries;
      n, next, entries := TakeObjects(objs, wanted, fixed);
      available := entries - n;
      if n != 0 {
        Release(next);
      }
    }

    /** rte_ring_count. */
    method Count() returns (count: nat)
      requires Valid()
      ensures count == |Contents()|
    {
      RoomLeft();
      AndMask(|Contents()|, log);
      ModOf(size, 0, |Contents()|);
      count := And(Ahead(prodTail, consTail), mask);
      if count > capacity { count := capacity; }
    }

    /** The block form of rte_ring_sc_dequeue_burst: the block has the objects while they still
        fill their slots, and they leave the ring when it ends.  The producer's calls during the
        block are stood for by one enqueue. */
    method DequeueInBlock(objs: array<T>, wanted: nat, sent: array<T>, k: nat) returns (n: nat, added: nat)
      requires Valid() && wanted <= objs.Length && k <= sent.Length && sent != ring && objs != ring && sent != objs
      requires Peeked() == 0
      modifies this`consHead, this`consTail, this`prodHead, this`prodTail, objs, ring
      ensures Valid() && Peeked() == 0
      ensures wanted <= old(|Contents()|) ==> n == wanted
      ensures wanted > old(|Contents()|) ==> n == old(|Contents()|)
      ensures k <= capacity - old(|Contents()|) ==> added == k
      ensures k > capacity - old(|Contents()|) ==> added == capacity - old(|Contents()|)
      ensures objs[..n] == old(Contents())[..n]
      ensures Contents() == old(Contents())[n..] + sent[..added]
    {
      var next, free;
      n, next := Peek(objs, wanted);
      added, free := DoEnqueue(sent, k, false);
      if n > 0 {
        Release(next);
      }
    }
  }
}
