/** The ring as a protocol between one producer and one consumer (src/ext/rte_ring.c,
    src/ext/rte_ring_extra.c and the block form in src/dpdk/inlines.cr).

    Every access to a shared index or slot is a step of its own, and the two sides interleave
    freely.  The four indices run modulo 2^32; slots are addressed modulo the size of the ring. */
module RingProtocol {
  import opened Bits
  import opened RingCopy

  /** The producer's local state.  It has read the free space; or it has moved its head and
      stored done of its objects. */
  datatype Producer<T> =
    | PIdle
    | PSeen(wanted: seq<T>, fixed: bool, room: nat)
    | PStoring(head: nat, objs: seq<T>, done: nat)

  /** The consumer's local state.  It has read the entries; or it has moved its head and loaded
      some objects; or the block runs on the objects while their slots are still taken. */
  datatype Consumer<T> =
    | CIdle
    | CSeen(wanted: nat, head: nat, entries: nat)
    | CLoading(head: nat, n: nat, got: seq<T>)
    | CBlock(next: nat, got: seq<T>)

  datatype Ring<T> = Ring(
    log: nat, capacity: nat, slots: seq<T>,
    prodHead: nat, prodTail: nat, consHead: nat, consTail: nat,
    producer: Producer<T>, consumer: Consumer<T>)

  datatype Step<T> =
    | Reserve(objs: seq<T>, fixed: bool) | MoveProdHead | Store | Publish
    | Look(n: nat) | MoveConsHead | Load | RunBlock | Release

  /** How far index b is ahead of index a, as the 32-bit subtraction gives it. */
  function Ahead(b: nat, a: nat): nat { Wrap(b - a) }

  /** The 32-bit value of an index. */
  function Wrap(x: int): nat { x % U32 }

  predicate WellSized<T>(r: Ring<T>) {
    r.log <= 31 && |r.slots| == Pow2(r.log) && r.capacity < |r.slots|
  }

  function Reserved<T>(wanted: seq<T>, fixed: bool, room: nat): seq<T> {
    if |wanted| <= room then wanted else if fixed then [] else wanted[..room]
  }

  predicate Enabled<T>(r: Ring<T>, e: Step<T>) {
    && WellSized(r) && |r.slots| > 0
    && match e
       case Reserve(_, _) => r.producer.PIdle?
       case MoveProdHead => r.producer.PSeen?
       case Store => r.producer.PStoring? && r.producer.done < |r.producer.objs|
       case Publish => r.producer.PStoring? && r.producer.done == |r.producer.objs|
       case Look(_) => r.consumer.CIdle?
       case MoveConsHead => r.consumer.CSeen?
       case Load => r.consumer.CLoading? && |r.consumer.got| < r.consumer.n
       case RunBlock => r.consumer.CLoading? && |r.consumer.got| == r.consumer.n
       case Release => r.consumer.CBlock?
  }

  function Next<T>(r: Ring<T>, e: Step<T>): Ring<T>
    requires Enabled(r, e)
  {
    match e
    case Reserve(objs, fixed) =>
      r.(producer := PSeen(objs, fixed, Ahead(r.capacity + r.consTail, r.prodHead)))
    case MoveProdHead =>
      var p := r.producer;
      var objs := Reserved(p.wanted, p.fixed, p.room);
      if objs == [] then r.(producer := PIdle)
      else r.(prodHead := Wrap(r.prodHead + |objs|), producer := PStoring(r.prodHead, objs, 0))
    case Store =>
      var p := r.producer;
      var i := Slot(p.head + p.done, |r.slots|);
      r.(slots := r.slots[i := p.objs[p.done]], producer := p.(done := p.done + 1))
    case Publish =>
      r.(prodTail := Wrap(r.producer.head + |r.producer.objs|), producer := PIdle)
    case Look(n) =>
      r.(consumer := CSeen(n, r.consHead, Ahead(r.prodTail, r.consHead)))
    case MoveConsHead =>
      var c := r.consumer;
      var n := if c.wanted > c.entries then c.entries else c.wanted;
      if n == 0 then r.(consumer := CIdle)
      else r.(consHead := Wrap(c.head + n), consumer := CLoading(c.head, n, []))
    case Load =>
      var c := r.consumer;
      r.(consumer := CLoading(c.head, c.n, c.got + [r.slots[Slot(c.head + |c.got|, |r.slots|)]]))
    case RunBlock =>
      r.(consumer := CBlock(Wrap(r.consumer.head + r.consumer.n), r.consumer.got))
    case Release => r.(consTail := r.consumer.next, consumer := CIdle)
  }

  /** What has happened so far: the objects reserved for, in order, how many were published, taken
      and released, and what the blocks received.  start is where the indices began. */
  datatype History<T> = History(start: nat, sent: seq<T>, published: nat, taken: nat, released: nat, received: seq<T>)

  function Record<T>(r: Ring<T>, h: History<T>, e: Step<T>): History<T>
    requires Enabled(r, e)
  {
    match e
    case MoveProdHead => h.(sent := h.sent + Reserved(r.producer.wanted, r.producer.fixed, r.producer.room))
    case Publish => h.(published := h.published + |r.producer.objs|)
    case MoveConsHead =>
      var c := r.consumer;
      h.(taken := h.taken + if c.wanted > c.entries then c.entries else c.wanted)
    case RunBlock => h.(received := h.received + r.consumer.got)
    case Release => h.(released := h.released + |r.consumer.got|)
    case _ => h
  }

  /** How many objects, counted from the first, sit correctly in their slots. */
  function Stored<T>(r: Ring<T>, h: History<T>): nat {
    h.published + if r.producer.PStoring? then r.producer.done else 0
  }

  /** The order of the four indices, counted without wrapping, and the 32-bit fields they give. */
  predicate IndicesOk<T>(r: Ring<T>, h: History<T>) {
    && h.released <= h.taken <= h.published <= |h.sent| <= h.released + r.capacity
    && r.prodHead == Wrap(h.start + |h.sent|)
    && r.prodTail == Wrap(h.start + h.published)
    && r.consHead == Wrap(h.start + h.taken)
    && r.consTail == Wrap(h.start + h.released)
  }

  ghost predicate ProducerOk<T>(r: Ring<T>, h: History<T>)
    requires h.published <= |h.sent|
  {
    match r.producer
    case PIdle => h.published == |h.sent|
    case PSeen(_, _, room) => h.published == |h.sent| && |h.sent| + room <= h.released + r.capacity
    case PStoring(head, objs, done) =>
      && done <= |objs| && h.published + |objs| == |h.sent|
      && objs == h.sent[h.published..]
      && head == Wrap(h.start + h.published)
  }

  ghost predicate ConsumerOk<T>(r: Ring<T>, h: History<T>)
    requires h.released <= h.taken <= |h.sent|
  {
    match r.consumer
    case CIdle => h.taken == h.released && h.received == h.sent[..h.taken]
    case CSeen(_, head, entries) =>
      && h.taken == h.released && h.received == h.sent[..h.taken]
      && head == r.consHead && h.taken + entries <= h.published
    case CLoading(head, n, got) =>
      && h.taken == h.released + n && |got| <= n && 0 < n && h.received == h.sent[..h.released]
      && head == Wrap(h.start + h.released)
      && got == h.sent[h.released..h.released + |got|]
    case CBlock(next, got) =>
      && next == r.consHead && h.received == h.sent[..h.taken]
      && got == h.sent[h.released..h.taken]
  }

  /** The slot of object j still holds what was sent. */
  ghost predicate Holds<T>(r: Ring<T>, h: History<T>, j: nat)
    requires |r.slots| > 0 && j < |h.sent|
  {
    r.slots[Slot(h.start + j, |r.slots|)] == h.sent[j]
  }

  ghost predicate SlotsOk<T>(r: Ring<T>, h: History<T>) {
    && |r.slots| > 0 && Stored(r, h) <= |h.sent|
    && forall j :: h.released <= j < Stored(r, h) ==> Holds(r, h, j)
  }

  ghost predicate Inv<T>(r: Ring<T>, h: History<T>) {
    WellSized(r) && IndicesOk(r, h) && ProducerOk(r, h) && ConsumerOk(r, h) && SlotsOk(r, h)
  }

  // ---------- Arithmetic of the indices ----------

  lemma AheadIs(start: nat, a: nat, b: nat)
    requires a <= b < a + U32
    ensures Ahead(Wrap(start + b), Wrap(start + a)) == b - a
  {
    var x, y := start + b, start + a;
    assert Wrap(x) - Wrap(y) == (b - a) + U32 * (y / U32 - x / U32);
    ModShift(b - a, U32, y / U32 - x / U32);
  }

  lemma WrapAdd(x: nat, n: nat)
    ensures Wrap(Wrap(x) + n) == Wrap(x + n)
  {
    assert x % U32 + n + U32 * (x / U32) == x + n;
    ModShift(x % U32 + n, U32, x / U32);
  }

  lemma SizeBound(log: nat)
    requires log <= 31
    ensures 0 < Pow2(log) < U32
  {
    Pow2Of32();
    Pow2Grows(log, 31);
  }

  lemma Pow2Of32()
    ensures Pow2(32) == U32 && 0 < Pow2(31) < U32
  {
    assert Pow2(8) == 256;
    Pow2Add(8, 8);
    Pow2Add(16, 16);
    assert Pow2(32) == 2 * Pow2(31);
  }

  lemma {:induction false} Pow2Grows(a: nat, b: nat)
    requires a <= b
    ensures 0 < Pow2(a) <= Pow2(b)
    decreases b
  {
    if a < b { Pow2Grows(a, b - 1); } else { Pow2Positive(a); }
  }

  lemma SlotIs(x: nat, i: nat, log: nat)
    requires log <= 31
    ensures Pow2(log) > 0 && Slot(Wrap(x) + i, Pow2(log)) == Slot(x + i, Pow2(log))
  {
    Pow2Of32();
    Pow2Grows(log, 32);
    Pow2Add(log, 32 - log);
    SlotWrapped(x, i, Pow2(log), Pow2(32 - log));
  }

  lemma SlotWrapped(x: nat, i: nat, size: nat, m: nat)
    requires size > 0 && size * m == U32
    ensures Slot(Wrap(x) + i, size) == Slot(x + i, size)
  {
    var q := x / U32;
    assert x + i == (x % U32 + i) + (size * m) * q;
    assert (size * m) * q == size * (m * q);
    ModShift(x % U32 + i, size, m * q);
  }

  /** Objects less than a ring apart have different slots. */
  lemma SlotsDiffer(a: nat, b: nat, size: nat)
    requires a < b < a + size
    ensures Slot(a, size) != Slot(b, size)
  {
    if a % size == b % size {
      assert a == size * (a / size) + a % size;
      assert b == size * (b / size) + b % size;
      var d := b / size - a / size;
      assert b - a == size * d;
      SmallMultiple(size, d);
    }
  }

  lemma WrapDifference(x: nat, y: nat)
    ensures Ahead(Wrap(x), y) == Ahead(x, y)
  {
    assert x - y == (x % U32 - y) + U32 * (x / U32);
    ModShift(x % U32 - y, U32, x / U32);
  }

  // ---------- Every step keeps the invariant ----------

  /** The slots in use stay so while the slots do not change. */
  lemma SlotsKept<T>(r: Ring<T>, h: History<T>, r': Ring<T>, h': History<T>)
    requires SlotsOk(r, h) && r'.slots == r.slots && h'.start == h.start
    requires h.sent <= h'.sent && h.released <= h'.released && Stored(r', h') == Stored(r, h)
    ensures SlotsOk(r', h')
  {
    hide Slot, Stored;
    forall j | h'.released <= j < Stored(r', h') ensures Holds(r', h', j) {
      assert Holds(r, h, j);
    }
  }

  lemma ProducerStep<T>(r: Ring<T>, h: History<T>, e: Step<T>)
    requires Inv(r, h) && Enabled(r, e) && (e.Reserve? || e.MoveProdHead? || e.Publish?)
    ensures Inv(Next(r, e), Record(r, h, e))
  {
    hide Wrap, Slot, Ahead, Pow2;
    var r', h' := Next(r, e), Record(r, h, e);
    match e
    case Reserve(objs, fixed) =>
      RoomIs(r, h);
      SlotsKept(r, h, r', h');
    case MoveProdHead =>
      var objs := Reserved(r.producer.wanted, r.producer.fixed, r.producer.room);
      WrapAdd(h.start + |h.sent|, |objs|);
      assert h'.sent[h.published..] == objs;
      SlotsKept(r, h, r', h');
      assert ConsumerOk(r', h') by { PrefixKept(h.sent, objs); }
    case Publish =>
      WrapAdd(h.start + h.published, |r.producer.objs|);
      SlotsKept(r, h, r', h');
  }

  /** Sending more changes nothing that was sent before. */
  lemma PrefixKept<T>(sent: seq<T>, more: seq<T>)
    ensures forall a, b :: 0 <= a <= b <= |sent| ==> (sent + more)[a..b] == sent[a..b]
    ensures forall a :: 0 <= a <= |sent| ==> (sent + more)[..a] == sent[..a]
  {
    forall a, b | 0 <= a <= b <= |sent| ensures (sent + more)[a..b] == sent[a..b] { }
    forall a | 0 <= a <= |sent| ensures (sent + more)[..a] == sent[..a] { }
  }

  /** The free space the producer reads. */
  lemma RoomIs<T>(r: Ring<T>, h: History<T>)
    requires Inv(r, h)
    ensures Ahead(r.capacity + r.consTail, r.prodHead) == h.released + r.capacity - |h.sent|
  {
    SizeBound(r.log);
    WrapAdd(h.start + h.released, r.capacity);
    WrapDifference(r.capacity + r.consTail, r.prodHead);
    AheadIs(h.start, |h.sent|, h.released + r.capacity);
  }

  /** A store goes to the slot of the next object, which is no slot still in use. */
  lemma StoreStep<T>(r: Ring<T>, h: History<T>)
    requires Inv(r, h) && Enabled(r, Store)
    ensures Inv(Next(r, Store), h)
  {
    hide Wrap, Slot, Ahead, Pow2;
    var p := r.producer;
    var r' := Next(r, Store);
    var k := Stored(r, h);
    SlotIs(h.start + h.published, p.done, r.log);
    assert h.sent[k] == p.objs[p.done];
    forall j | h.released <= j < Stored(r', h) ensures Holds(r', h, j) {
      if j < k {
        assert Holds(r, h, j);
        SlotsDiffer(h.start + j, h.start + k, |r.slots|);
      }
    }
    assert ConsumerOk(r', h);
  }

  lemma LookStep<T>(r: Ring<T>, h: History<T>, n: nat)
    requires Inv(r, h) && Enabled(r, Look(n))
    ensures Inv(Next(r, Look(n)), h)
  {
    IndicesInOrder(r, h);
    SizeBound(r.log);
    hide Wrap, Slot, Ahead, Pow2;
    var r' := Next(r, Look(n));
    AheadIs(h.start, h.taken, h.published);
    SlotsKept(r, h, r', h);
  }

  lemma TakeStep<T>(r: Ring<T>, h: History<T>)
    requires Inv(r, h) && Enabled(r, MoveConsHead)
    ensures Inv(Next(r, MoveConsHead), Record(r, h, MoveConsHead))
  {
    hide Wrap, Slot, Ahead, Pow2;
    var r', h' := Next(r, MoveConsHead), Record(r, h, MoveConsHead);
    var c := r.consumer;
    WrapAdd(h.start + h.taken, if c.wanted > c.entries then c.entries else c.wanted);
    SlotsKept(r, h, r', h');
  }

  lemma GiveStep<T>(r: Ring<T>, h: History<T>, e: Step<T>)
    requires Inv(r, h) && Enabled(r, e) && (e.RunBlock? || e.Release?)
    ensures Inv(Next(r, e), Record(r, h, e))
  {
    hide Wrap, Slot, Ahead, Pow2;
    var r', h' := Next(r, e), Record(r, h, e);
    SlotsKept(r, h, r', h');
    if e.RunBlock? {
      WrapAdd(h.start + h.released, r.consumer.n);
      assert h.sent[..h.released] + h.sent[h.released..h.taken] == h.sent[..h.taken];
    }
  }

  /** A load finds the next object sent. */
  lemma LoadStep<T>(r: Ring<T>, h: History<T>)
    requires Inv(r, h) && Enabled(r, Load)
    ensures Inv(Next(r, Load), h)
  {
    hide Wrap, Slot, Ahead, Pow2;
    var r', k := Next(r, Load), h.released + |r.consumer.got|;
    SlotIs(h.start + h.released, |r.consumer.got|, r.log);
    assert Holds(r, h, k);
    assert r'.consumer.got == h.sent[h.released..k + 1];
    SlotsKept(r, h, r', h);
  }

  lemma StepKeepsInv<T>(r: Ring<T>, h: History<T>, e: Step<T>)
    requires Inv(r, h) && Enabled(r, e)
    ensures Inv(Next(r, e), Record(r, h, e))
  {
    if e.Store? {
      StoreStep(r, h);
    } else if e.Load? {
      LoadStep(r, h);
    } else if e.Reserve? || e.MoveProdHead? || e.Publish? {
      ProducerStep(r, h, e);
    } else if e.Look? {
      LookStep(r, h, e.n);
    } else if e.MoveConsHead? {
      TakeStep(r, h);
    } else {
      GiveStep(r, h, e);
    }
  }

  /** An empty ring whose indices all stand at some 32-bit value. */
  predicate Empty<T>(r: Ring<T>, index: nat) {
    && WellSized(r) && index < U32
    && r.prodHead == r.prodTail == r.consHead == r.consTail == index
    && r.producer.PIdle? && r.consumer.CIdle?
  }

  ghost predicate IsRun<T>(r: Ring<T>, h: History<T>, es: seq<Step<T>>, r': Ring<T>, h': History<T>)
    decreases |es|
  {
    if es == [] then r == r' && h == h'
    else Enabled(r, es[0]) && IsRun(Next(r, es[0]), Record(r, h, es[0]), es[1..], r', h')
  }

  lemma {:induction false} RunKeepsInv<T>(r: Ring<T>, h: History<T>, es: seq<Step<T>>, r': Ring<T>, h': History<T>)
    requires Inv(r, h) && IsRun(r, h, es, r', h')
    ensures Inv(r', h')
    decreases |es|
  {
    if es != [] {
      StepKeepsInv(r, h, es[0]);
      RunKeepsInv(Next(r, es[0]), Record(r, h, es[0]), es[1..], r', h');
    }
  }

  /** In every interleaving from an empty ring, wherever its indices stand: the indices keep their
      order within the capacity, what the blocks received is a prefix of what was sent, and while
      a block runs it has exactly the next objects and their slots still hold them. */
  lemma FirstInFirstOut<T>(r: Ring<T>, index: nat, es: seq<Step<T>>, r': Ring<T>, h: History<T>)
    requires Empty(r, index) && IsRun(r, History(index, [], 0, 0, 0, []), es, r', h)
    ensures Ahead(r'.consHead, r'.consTail) <= Ahead(r'.prodTail, r'.consTail)
         <= Ahead(r'.prodHead, r'.consTail) <= r'.capacity
    ensures h.received <= h.sent
    ensures r'.consumer.CBlock? ==>
              && |r'.slots| > 0 && |r'.consumer.got| <= |h.received|
              && r'.consumer.got == h.received[|h.received| - |r'.consumer.got|..]
              && |r'.consumer.got| == Ahead(r'.consHead, r'.consTail)
              && forall k :: 0 <= k < |r'.consumer.got| ==>
                   r'.slots[Slot(r'.consTail + k, |r'.slots|)] == r'.consumer.got[k]
  {
    var h0: History<T> := History(index, [], 0, 0, 0, []);
    assert Inv(r, h0) by { SizeBound(r.log); }
    hide *;
    RunKeepsInv(r, h0, es, r', h);
    IndicesInOrder(r', h);
    ReceivedInOrder(r', h);
    if r'.consumer.CBlock? { BlockHasNext(r', h); }
  }

  lemma IndicesInOrder<T>(r: Ring<T>, h: History<T>)
    requires Inv(r, h)
    ensures Ahead(r.consHead, r.consTail) == h.taken - h.released
    ensures Ahead(r.prodTail, r.consTail) == h.published - h.released
    ensures Ahead(r.prodHead, r.consTail) == |h.sent| - h.released
    ensures h.released <= h.taken <= h.published <= |h.sent| <= h.released + r.capacity
  {
    SizeBound(r.log);
    hide Wrap, Slot, Ahead, Pow2, SlotsOk, ProducerOk, ConsumerOk;
    AheadIs(h.start, h.released, h.taken);
    AheadIs(h.start, h.released, h.published);
    AheadIs(h.start, h.released, |h.sent|);
  }

  lemma ReceivedInOrder<T>(r: Ring<T>, h: History<T>)
    requires Inv(r, h)
    ensures h.received <= h.sent
  {
  }

  /** While a block runs it has the objects received last, as many as lie between the consumer's
      tail and head, and their slots still hold them. */
  lemma BlockHasNext<T>(r: Ring<T>, h: History<T>)
    requires Inv(r, h) && r.consumer.CBlock?
    ensures |r.slots| > 0 && |r.consumer.got| <= |h.received|
    ensures r.consumer.got == h.received[|h.received| - |r.consumer.got|..]
    ensures |r.consumer.got| == Ahead(r.consHead, r.consTail)
    ensures forall k :: 0 <= k < |r.consumer.got| ==>
              r.slots[Slot(r.consTail + k, |r.slots|)] == r.consumer.got[k]
  {
    hide Wrap, Slot, Ahead, Pow2, ProducerOk;
    IndicesInOrder(r, h);
    forall k | 0 <= k < |r.consumer.got|
      ensures r.slots[Slot(r.consTail + k, |r.slots|)] == r.consumer.got[k]
    {
      SlotIs(h.start + h.released, k, r.log);
      assert Holds(r, h, h.released + k);
    }
  }

  /** rte_ring_count. */
  function RingCount<T>(r: Ring<T>): nat
    requires |r.slots| > 0
  {
    var count := And(Ahead(r.prodTail, r.consTail), |r.slots| - 1);
    if count > r.capacity then r.capacity else count
  }

  /** rte_ring_free_count. */
  function RingFreeCount<T>(r: Ring<T>): int
    requires |r.slots| > 0
  {
    r.capacity - RingCount(r)
  }

  /** Between any two steps the ring counts as used the objects published and not yet released, a
      block that is still running included, and the rest of the capacity as free. */
  lemma CountIs<T>(r: Ring<T>, h: History<T>)
    requires Inv(r, h)
    ensures RingCount(r) == h.published - h.released
    ensures RingFreeCount(r) == r.capacity - (h.published - h.released)
    ensures RingFreeCount(r) == 0 <==> h.published - h.released == r.capacity
    ensures RingCount(r) == 0 <==> h.published == h.released
  {
    SizeBound(r.log);
    AheadIs(h.start, h.released, h.published);
    AndMask(h.published - h.released, r.log);
    ModOf(|r.slots|, 0, h.published - h.released);
  }
}
