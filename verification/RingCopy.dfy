/** The copies between a ring's slots and a table of objects: ENQUEUE_PTRS and DEQUEUE_PTRS of
    src/ext/rte_ring.c, unrolled by four when the slots do not wrap, in two loops when they do. */
module RingCopy {
  import opened Bits

  /** The slot of an index. */
  function Slot(x: nat, size: nat): nat
    requires size > 0
    ensures Slot(x, size) < size
  {
    x % size
  }

  /** How far slot i lies behind the slot of index head, going round a ring of the given size. */
  function Behind(i: nat, head: nat, size: nat): nat
    requires size > 0
  {
    (i - head) % size
  }

  /** The objects of the k slots from an index on. */
  ghost function Window<T>(slots: seq<T>, tail: nat, k: nat): (w: seq<T>)
    requires |slots| > 0
  {
    seq(k, i requires 0 <= i < k => slots[Slot(tail + i, |slots|)])
  }

  /** The slots after objs are stored from an index on. */
  ghost function Filled<T>(slots: seq<T>, head: nat, objs: seq<T>): (r: seq<T>)
    requires |slots| > 0
    ensures |r| == |slots|
  {
    seq(|slots|, i requires 0 <= i < |slots| =>
      if Behind(i, head, |slots|) < |objs| then objs[Behind(i, head, |slots|)] else slots[i])
  }

  function BehindSlot(i: nat, idx: nat, size: nat): int {
    if i >= idx then i - idx else i - idx + size
  }

  lemma BehindIs(i: nat, head: nat, size: nat)
    requires i < size
    ensures Behind(i, head, size) == BehindSlot(i, head % size, size) < size
  {
    var d := BehindSlot(i, head % size, size);
    assert head == size * (head / size) + head % size;
    var q := if i >= head % size then head / size else head / size + 1;
    assert i - head == size * (-q) + d by {
      if i < head % size { assert size * (-(head / size + 1)) == size * (-(head / size)) - size; }
    }
    ModOf(size, -q, d);
  }

  /** The slot of index head + k is k behind head. */
  lemma SlotBehind(head: nat, k: nat, size: nat)
    requires k < size
    ensures Behind(Slot(head + k, size), head, size) == k
  {
    var i := (head + k) % size;
    assert head + k == size * ((head + k) / size) + i;
    assert i - head == size * (-((head + k) / size)) + k by {
      assert size * (-((head + k) / size)) == -(size * ((head + k) / size));
    }
    ModOf(size, -((head + k) / size), k);
  }

  /** The loop unrolled by four, and the fall-through switch for what is left. */
  method CopyUnrolled<T>(dst: array<T>, d: nat, src: array<T>, f: nat, n: nat)
    requires dst != src && d + n <= dst.Length && f + n <= src.Length
    modifies dst
    ensures forall j :: 0 <= j < dst.Length ==> dst[j] == if d <= j < d + n then src[f + j - d] else old(dst[j])
  {
    var i := 0;
    while i < n - n % 4
      invariant i <= n - n % 4 && i % 4 == 0
      invariant forall j :: 0 <= j < dst.Length ==> dst[j] == if d <= j < d + i then src[f + j - d] else old(dst[j])
    {
      dst[d + i] := src[f + i];
      dst[d + i + 1] := src[f + i + 1];
      dst[d + i + 2] := src[f + i + 2];
      dst[d + i + 3] := src[f + i + 3];
      i := i + 4;
    }
    if n % 4 == 3 {
      dst[d + i] := src[f + i];
      i := i + 1;
    }
    if n % 4 >= 2 {
      dst[d + i] := src[f + i];
      i := i + 1;
    }
    if n % 4 >= 1 {
      dst[d + i] := src[f + i];
      i := i + 1;
    }
  }

  /** One of the two plain loops of the wrapping branch. */
  method CopyLoop<T>(dst: array<T>, d: nat, src: array<T>, f: nat, n: nat)
    requires dst != src && d + n <= dst.Length && f + n <= src.Length
    modifies dst
    ensures forall j :: 0 <= j < dst.Length ==> dst[j] == if d <= j < d + n then src[f + j - d] else old(dst[j])
  {
    var i := 0;
    while i < n
      invariant i <= n
      invariant forall j :: 0 <= j < dst.Length ==> dst[j] == if d <= j < d + i then src[f + j - d] else old(dst[j])
    {
      dst[d + i] := src[f + i];
      i := i + 1;
    }
  }

  /** ENQUEUE_PTRS: the n objects go to slots head, head + 1, ... modulo the size of the ring, and
      no other slot changes. */
  method EnqueuePtrs<T>(ring: array<T>, ghost log: nat, head: nat, objs: array<T>, n: nat)
    requires ring != objs && ring.Length == Pow2(log) && n <= ring.Length && n <= objs.Length
    modifies ring
    ensures ring.Length > 0 && ring[..] == Filled(old(ring[..]), head, objs[..n])
  {
    Pow2Positive(log);
    AndMask(head, log);
    var size := ring.Length;
    var idx := And(head, size - 1);
    if idx + n < size {
      CopyUnrolled(ring, idx, objs, 0, n);
    } else {
      CopyLoop(ring, idx, objs, 0, size - idx);
      CopyLoop(ring, 0, objs, size - idx, n - (size - idx));
    }
    forall s | 0 <= s < size ensures Behind(s, head, size) == BehindSlot(s, idx, size) {
      BehindIs(s, head, size);
    }
  }

  /** DEQUEUE_PTRS: object k of the table becomes what slot head + k modulo the size holds, for
      k < n, and the rest of the table does not change. */
  method DequeuePtrs<T>(ring: array<T>, ghost log: nat, head: nat, objs: array<T>, n: nat)
    requires ring != objs && ring.Length == Pow2(log) && n <= ring.Length && n <= objs.Length
    modifies objs
    ensures ring.Length > 0
    ensures objs[..n] == Window(ring[..], head, n) && objs[n..] == old(objs[n..])
  {
    Pow2Positive(log);
    AndMask(head, log);
    var size := ring.Length;
    var idx := And(head, size - 1);
    if idx + n < size {
      CopyUnrolled(objs, 0, ring, idx, n);
    } else {
      CopyLoop(objs, 0, ring, idx, size - idx);
      CopyLoop(objs, size - idx, ring, 0, n - (size - idx));
    }
    forall k | 0 <= k < n ensures objs[..n][k] == ring[Slot(head + k, size)] {
      SlotOf(head, k, size);
    }
  }

  lemma SlotOf(head: nat, k: nat, size: nat)
    requires size > 0 && k <= size
    ensures Slot(head + k, size) ==
              if head % size + k < size then head % size + k
              else if head % size + k < 2 * size then head % size + k - size else 0
  {
    assert head == size * (head / size) + head % size;
    var r := head % size + k;
    if r < size {
      ModOf(size, head / size, r);
    } else if r < 2 * size {
      assert head + k == size * (head / size + 1) + (r - size) by {
        assert size * (head / size + 1) == size * (head / size) + size;
      }
      ModOf(size, head / size + 1, r - size);
    }
  }

  /** What ENQUEUE_PTRS stored, DEQUEUE_PTRS from the same head finds again. */
  lemma StoredIsFound<T>(slots: seq<T>, head: nat, objs: seq<T>)
    requires 0 < |slots| && |objs| <= |slots|
    ensures Window(Filled(slots, head, objs), head, |objs|) == objs
  {
    var w := Window(Filled(slots, head, objs), head, |objs|);
    forall k | 0 <= k < |w| ensures w[k] == objs[k] {
      SlotBehind(head, k, |slots|);
    }
  }
}
