/** Packet buffers as memory: the mbuf header, the pools, and the reference-count invariant
    that every run of the mbuf operations keeps (src/ext/rte_mbuf.c).

    Memory is a map from addresses to mbuf headers, each carrying the bytes of the buffer
    embedded behind it.  An indirect mbuf points into the buffer of another mbuf, and the owner
    of that buffer is recovered by the same address arithmetic the source uses. */
module MbufHeap {
  import opened Bits

  type Ptr = int
  const NULL: Ptr := 0

  const SIZEOF_MBUF := 128
  const HEADROOM := 128
  const MAX_NB_SEGS := 0xFFFF

  /** A packet pool: the size of the private area and of the data room of each of its mbufs. */
  datatype Pool = Pool(id: nat, privSize: nat, dataRoom: nat)

  datatype Mbuf = Mbuf(
    pool: Pool,
    bufAddr: int, privSize: nat, bufLen: nat,
    indirect: bool,
    refcnt: nat,
    dataOff: nat, dataLen: nat,
    next: Ptr, nbSegs: nat, pktLen: nat,
    room: seq<Byte>)

  type Memory = map<Ptr, Mbuf>

  /** All packet memory: the mbuf headers, the addresses sitting in the pools, and, for every
      mbuf, how many references the application has been handed and has not given back. */
  datatype State = State(mem: Memory, free: set<Ptr>, refs: map<Ptr, nat>)

  function BufBase(p: Ptr, pool: Pool): int { p + SIZEOF_MBUF + pool.privSize }

  /** rte_mbuf_from_indirect: step back from the buffer to the header it is embedded behind. */
  function FromIndirect(x: Mbuf): Ptr { x.bufAddr - SIZEOF_MBUF - x.privSize }

  /** The indirect mbufs attached to the buffer of d. */
  ghost function Attached(mem: Memory, d: Ptr): set<Ptr> {
    set q | q in mem && mem[q].indirect && FromIndirect(mem[q]) == d
  }

  /** Outstanding references of the application plus attached indirect mbufs. */
  ghost function Holders(s: State, p: Ptr): nat
    requires p in s.refs
  {
    s.refs[p] + |Attached(s.mem, p)|
  }

  ghost predicate HeaderOk(mem: Memory, p: Ptr)
    requires p in mem
  {
    var x := mem[p];
    && p != NULL
    && |x.room| == x.pool.dataRoom < U16
    && x.dataOff + x.dataLen <= x.bufLen
    && x.refcnt < U16 && x.nbSegs < U16 && x.pktLen < U32
    && (x.next == NULL ==> x.nbSegs == 1)
    && (!x.indirect ==>
          && x.bufAddr == BufBase(p, x.pool)
          && x.privSize == x.pool.privSize
          && x.bufLen == x.pool.dataRoom)
    && (x.indirect ==>
          var d := FromIndirect(x);
          && d in mem && !mem[d].indirect
          && x.privSize == mem[d].pool.privSize
          && x.bufLen == mem[d].pool.dataRoom)
  }

  /** What rte_mbuf_raw_free asserts of its argument, and rte_mbuf_raw_alloc of its result. */
  predicate RawFreeable(x: Mbuf) {
    !x.indirect && x.refcnt == 1 && x.next == NULL && x.nbSegs == 1
  }

  ghost predicate CountOk(s: State, p: Ptr)
    requires p in s.mem && p in s.refs
  {
    if p in s.free then
      Holders(s, p) == 0 && RawFreeable(s.mem[p])
    else
      s.mem[p].refcnt == Holders(s, p) > 0
  }

  /** The reference counter of a live mbuf is the number of its holders, and the pools hold
      exactly the mbufs nobody holds. */
  ghost predicate Inv(s: State) {
    && s.refs.Keys == s.mem.Keys
    && s.free <= s.mem.Keys
    && (forall p :: p in s.mem ==> HeaderOk(s.mem, p))
    && (forall p :: p in s.mem ==> CountOk(s, p))
  }

  // ---------- The operations as functions on memory ----------

  function RefcntAdd(mem: Memory, p: Ptr, v: int): Memory
    requires p in mem
  {
    mem[p := mem[p].(refcnt := (mem[p].refcnt + v) % U16)]
  }

  /** rte_pktmbuf_reset. */
  function Reset(x: Mbuf): Mbuf {
    x.(next := NULL, pktLen := 0, nbSegs := 1, indirect := false,
       dataOff := Min(HEADROOM, x.bufLen), dataLen := 0)
  }

  function AllocS(s: State, p: Ptr): State
    requires p in s.free && p in s.mem
  {
    State(s.mem[p := Reset(s.mem[p])], s.free - {p}, s.refs[p := 1])
  }

  /** The header of mi once it points into the buffer that m points into. */
  function Pointed(mi: Mbuf, m: Mbuf): Mbuf {
    mi.(privSize := m.privSize, bufAddr := m.bufAddr, bufLen := m.bufLen,
        dataOff := m.dataOff, dataLen := m.dataLen,
        next := NULL, pktLen := m.dataLen, nbSegs := 1, indirect := true)
  }

  function AttachS(s: State, mi: Ptr, m: Ptr): State
    requires mi in s.mem && m in s.mem && FromIndirect(s.mem[m]) in s.mem
  {
    var mem := RefcntAdd(s.mem, FromIndirect(s.mem[m]), 1);
    s.(mem := mem[mi := Pointed(mem[mi], mem[m])])
  }

  /** The header of m once it points back at its own buffer. */
  function Restored(p: Ptr, x: Mbuf): Mbuf {
    x.(privSize := x.pool.privSize, bufAddr := BufBase(p, x.pool), bufLen := x.pool.dataRoom,
       dataOff := Min(HEADROOM, x.pool.dataRoom), dataLen := 0, indirect := false)
  }

  function Unlinked(x: Mbuf): Mbuf {
    x.(next := NULL, nbSegs := 1, refcnt := 1)
  }

  function DetachS(s: State, m: Ptr): State
    requires m in s.mem && FromIndirect(s.mem[m]) in s.mem
  {
    var md := FromIndirect(s.mem[m]);
    var mem := RefcntAdd(s.mem[m := Restored(m, s.mem[m])], md, -1);
    if mem[md].refcnt == 0 then
      s.(mem := mem[md := Unlinked(mem[md])], free := s.free + {md})
    else
      s.(mem := mem)
  }

  /** Giving back one reference to m: the last one detaches m and puts it back in its pool. */
  function FreeSegS(s: State, m: Ptr): State
    requires m in s.mem && m in s.refs && s.refs[m] >= 1
    requires FromIndirect(s.mem[m]) in s.mem
  {
    var refs := s.refs[m := s.refs[m] - 1];
    if s.mem[m].refcnt == 1 then
      var t := if s.mem[m].indirect then DetachS(s, m) else s;
      State(t.mem[m := Unlinked(t.mem[m])], t.free + {m}, refs)
    else
      State(RefcntAdd(s.mem, m, -1), s.free, refs)
  }

  /** The application hands out v more references to m, or takes back -v. */
  function ShareS(s: State, m: Ptr, v: int): State
    requires m in s.mem && m in s.refs && s.refs[m] + v >= 0
  {
    s.(mem := RefcntAdd(s.mem, m, v), refs := s.refs[m := s.refs[m] + v])
  }

  /** A change of the fields that describe one segment of a packet. */
  datatype Layout = Layout(dataOff: nat, dataLen: nat, next: Ptr, nbSegs: nat, pktLen: nat)

  predicate LayoutOk(x: Mbuf, l: Layout) {
    && l.dataOff + l.dataLen <= x.bufLen
    && (l.next == NULL ==> l.nbSegs == 1)
    && l.nbSegs < U16 && l.pktLen < U32
  }

  function Relaid(x: Mbuf, l: Layout): Mbuf {
    x.(dataOff := l.dataOff, dataLen := l.dataLen, next := l.next, nbSegs := l.nbSegs, pktLen := l.pktLen)
  }

  datatype Event =
    | Alloc(p: Ptr)
    | Attach(mi: Ptr, m: Ptr)
    | Detach(m: Ptr)
    | Share(m: Ptr, v: int)
    | FreeSeg(m: Ptr)
    | Edit(m: Ptr, layout: Layout)
    | Write(d: Ptr, room: seq<Byte>)

  ghost predicate Held(s: State, m: Ptr) { m in s.mem && m in s.refs && s.refs[m] >= 1 }

  /** What the source asks of the caller of each operation.  For attach that is the assertion
      "mi direct with a reference count of one", two different mbufs, and room in the counter. */
  ghost predicate Enabled(s: State, e: Event) {
    match e
    case Alloc(p) => p in s.free && p in s.mem
    case Attach(mi, m) =>
      && Held(s, mi) && Held(s, m) && mi != m
      && !s.mem[mi].indirect && s.mem[mi].refcnt == 1
      && FromIndirect(s.mem[m]) in s.mem
      && s.mem[FromIndirect(s.mem[m])].refcnt + 1 < U16
    case Detach(m) => Held(s, m) && s.mem[m].indirect && FromIndirect(s.mem[m]) in s.mem
    case Share(m, v) => Held(s, m) && s.refs[m] + v >= 0 && 0 < s.mem[m].refcnt + v < U16
    case FreeSeg(m) => Held(s, m) && FromIndirect(s.mem[m]) in s.mem
    case Edit(m, l) => Held(s, m) && LayoutOk(s.mem[m], l)
    case Write(d, room) => d in s.mem && |room| == |s.mem[d].room|
  }

  ghost function Apply(s: State, e: Event): State
    requires Enabled(s, e)
  {
    match e
    case Alloc(p) => AllocS(s, p)
    case Attach(mi, m) => AttachS(s, mi, m)
    case Detach(m) => DetachS(s, m)
    case Share(m, v) => ShareS(s, m, v)
    case FreeSeg(m) => FreeSegS(s, m)
    case Edit(m, l) => s.(mem := s.mem[m := Relaid(s.mem[m], l)])
    case Write(d, room) => s.(mem := s.mem[d := s.mem[d].(room := room)])
  }

  // ---------- Each operation keeps the invariant ----------

  /** The fields the invariant looks at through other mbufs. */
  predicate SameBuffer(x: Mbuf, y: Mbuf) {
    x.indirect == y.indirect && x.bufAddr == y.bufAddr && x.privSize == y.privSize && x.pool == y.pool
  }

  lemma AttachedSame(mem: Memory, m: Ptr, x: Mbuf)
    requires m in mem && SameBuffer(mem[m], x)
    ensures forall d :: Attached(mem[m := x], d) == Attached(mem, d)
  {
    forall d ensures Attached(mem[m := x], d) == Attached(mem, d) {
      assert forall q :: q in Attached(mem[m := x], d) <==> q in Attached(mem, d);
    }
  }

  /** Rewriting one header, in place, without moving its buffer. */
  lemma UpdateKeepsInv(s: State, m: Ptr, x: Mbuf, free: set<Ptr>, r: nat)
    requires Inv(s) && m in s.mem
    requires SameBuffer(s.mem[m], x) && HeaderOk(s.mem[m := x], m)
    requires free - {m} == s.free - {m}
    requires if m in free then r + |Attached(s.mem, m)| == 0 && RawFreeable(x)
             else x.refcnt == r + |Attached(s.mem, m)| > 0
    ensures Inv(State(s.mem[m := x], free, s.refs[m := r]))
    ensures forall d :: Attached(s.mem[m := x], d) == Attached(s.mem, d)
  {
    AttachedSame(s.mem, m, x);
    var t := State(s.mem[m := x], free, s.refs[m := r]);
    forall q | q in t.mem ensures HeaderOk(t.mem, q) { assert HeaderOk(s.mem, q); }
    forall q | q in t.mem ensures CountOk(t, q) {
      assert CountOk(s, q);
      assert q != m ==> (q in free <==> q in free - {m});
      assert q != m ==> (q in s.free <==> q in s.free - {m});
    }
    assert free <= t.mem.Keys by {
      assert forall q :: q in free && q != m ==> q in free - {m};
    }
  }

  lemma AllocKeepsInv(s: State, p: Ptr)
    requires Inv(s) && p in s.free
    ensures Inv(AllocS(s, p))
    ensures forall d :: Attached(AllocS(s, p).mem, d) == Attached(s.mem, d)
  {
    assert HeaderOk(s.mem, p) && CountOk(s, p);
    UpdateKeepsInv(s, p, Reset(s.mem[p]), s.free - {p}, 1);
  }

  /** A direct mbuf with reference count one has no mbuf attached to it. */
  lemma SoleHolder(s: State, m: Ptr)
    requires Inv(s) && Held(s, m) && s.mem[m].refcnt == 1
    ensures m !in s.free && s.refs[m] == 1 && Attached(s.mem, m) == {}
  {
    assert CountOk(s, m);
  }

  lemma IndirectUnattached(s: State, m: Ptr)
    requires Inv(s) && m in s.mem && s.mem[m].indirect
    ensures Attached(s.mem, m) == {} && m !in s.free
    ensures s.mem[m].refcnt == s.refs[m] > 0
    ensures m in Attached(s.mem, FromIndirect(s.mem[m]))
    ensures FromIndirect(s.mem[m]) != m && FromIndirect(s.mem[m]) !in s.free
  {
    assert HeaderOk(s.mem, m) && CountOk(s, m);
    forall q | q in s.mem ensures q !in Attached(s.mem, m) { assert HeaderOk(s.mem, q); }
    var d := FromIndirect(s.mem[m]);
    assert CountOk(s, d);
  }

  /** t is s with q made indirect, pointing at the buffer of d, whose count may differ. */
  ghost predicate PointedAt(s: State, t: State, q: Ptr, d: Ptr) {
    && q in s.mem && d in s.mem && q != d
    && t.mem.Keys == s.mem.Keys && t.refs == s.refs
    && (forall p :: p in s.mem && p != q && p != d ==> t.mem[p] == s.mem[p])
    && SameBuffer(s.mem[d], t.mem[d]) && !s.mem[d].indirect
    && !s.mem[q].indirect && t.mem[q].indirect && t.mem[q].pool == s.mem[q].pool
    && FromIndirect(t.mem[q]) == d
    && t.free - {d} == s.free - {d}
  }

  lemma PointedAtAttached(s: State, t: State, q: Ptr, d: Ptr)
    requires PointedAt(s, t, q, d)
    ensures Attached(t.mem, d) == Attached(s.mem, d) + {q}
    ensures |Attached(t.mem, d)| == |Attached(s.mem, d)| + 1
    ensures Attached(s.mem, d) == Attached(t.mem, d) - {q}
    ensures forall e :: e != d ==> Attached(t.mem, e) == Attached(s.mem, e)
  {
    forall e | e != d ensures Attached(t.mem, e) == Attached(s.mem, e) {
      assert forall p :: p in Attached(t.mem, e) <==> p in Attached(s.mem, e);
    }
    assert forall p :: p in Attached(t.mem, d) <==> p in Attached(s.mem, d) + {q};
    assert q !in Attached(s.mem, d);
  }

  /** Of a retargeting only the two mbufs involved need looking at. */
  lemma RetargetKeepsInv(s: State, t: State, q: Ptr, d: Ptr)
    requires Inv(s)
    requires (PointedAt(s, t, q, d) && Attached(s.mem, q) == {}) || PointedAt(t, s, q, d)
    requires t.free <= t.mem.Keys
    requires HeaderOk(t.mem, q) && HeaderOk(t.mem, d)
    requires CountOk(t, q) && CountOk(t, d)
    ensures Inv(t)
  {
    forall p | p in t.mem ensures HeaderOk(t.mem, p) {
      assert HeaderOk(s.mem, p);
      if p != q && s.mem[p].indirect { assert p in Attached(s.mem, FromIndirect(s.mem[p])); }
    }
    if PointedAt(t, s, q, d) { PointedAtAttached(t, s, q, d); } else { PointedAtAttached(s, t, q, d); }
    forall p | p in t.mem ensures CountOk(t, p) {
      assert CountOk(s, p);
      assert p != d ==> (p in s.free <==> p in s.free - {d});
      assert p != d ==> (p in t.free <==> p in t.free - {d});
    }
  }

  /** The state after attach, header by header. */
  lemma AttachShape(s: State, mi: Ptr, m: Ptr)
    requires Inv(s) && Enabled(s, Attach(mi, m))
    ensures var d := FromIndirect(s.mem[m]);
            var t := AttachS(s, mi, m);
            && d != mi && d !in s.free && mi !in s.free
            && !s.mem[d].indirect
            && t == s.(mem := s.mem[d := s.mem[d].(refcnt := s.mem[d].refcnt + 1)][mi := Pointed(s.mem[mi], s.mem[m])])
            && t.mem[mi].pktLen == s.mem[m].dataLen
  {
    SoleHolder(s, mi);
    assert HeaderOk(s.mem, m);
    if s.mem[m].indirect { IndirectUnattached(s, m); }
    var d := FromIndirect(s.mem[m]);
    assert CountOk(s, m) && CountOk(s, d);
  }

  lemma AttachPoints(s: State, mi: Ptr, m: Ptr)
    requires Inv(s) && Enabled(s, Attach(mi, m))
    ensures var t, d := AttachS(s, mi, m), FromIndirect(s.mem[m]);
            && PointedAt(s, t, mi, d) && Attached(s.mem, mi) == {} && t.free == s.free
            && HeaderOk(t.mem, mi) && HeaderOk(t.mem, d)
            && t.mem[d].refcnt == s.mem[d].refcnt + 1 && t.mem[mi].refcnt == s.mem[mi].refcnt
  {
    AttachShape(s, mi, m);
    SoleHolder(s, mi);
    var d := FromIndirect(s.mem[m]);
    assert HeaderOk(s.mem, m) && HeaderOk(s.mem, mi) && HeaderOk(s.mem, d);
    hide AttachS, CountOk;
  }

  lemma AttachKeepsInv(s: State, mi: Ptr, m: Ptr)
    requires Inv(s) && Enabled(s, Attach(mi, m))
    ensures Inv(AttachS(s, mi, m))
    ensures var d := FromIndirect(s.mem[m]);
            && d != mi
            && Attached(AttachS(s, mi, m).mem, d) == Attached(s.mem, d) + {mi}
            && forall e :: e != d ==> Attached(AttachS(s, mi, m).mem, e) == Attached(s.mem, e)
  {
    var t := AttachS(s, mi, m);
    var d := FromIndirect(s.mem[m]);
    AttachPoints(s, mi, m);
    PointedAtAttached(s, t, mi, d);
    AttachShape(s, mi, m);
    assert CountOk(s, d) && CountOk(s, mi);
    hide AttachS, HeaderOk;
    RetargetKeepsInv(s, t, mi, d);
  }

  /** The 16-bit counter is the only limit: attaching one mbuf too many wraps it to zero and
      loses the invariant, so the room asked for in Enabled is exactly what is needed. */
  lemma AttachOverflow(s: State, mi: Ptr, m: Ptr)
    requires Inv(s) && Held(s, mi) && Held(s, m) && mi != m
    requires !s.mem[mi].indirect && s.mem[mi].refcnt == 1
    requires FromIndirect(s.mem[m]) in s.mem
    ensures Inv(AttachS(s, mi, m)) <==> s.mem[FromIndirect(s.mem[m])].refcnt + 1 < U16
  {
    var d := FromIndirect(s.mem[m]);
    assert HeaderOk(s.mem, m) && HeaderOk(s.mem, d) && CountOk(s, m) && CountOk(s, d);
    if s.mem[d].refcnt + 1 < U16 {
      AttachKeepsInv(s, mi, m);
    } else {
      SoleHolder(s, mi);
      if s.mem[m].indirect { IndirectUnattached(s, m); }
      var t := AttachS(s, mi, m);
      assert d != mi && d !in t.free && t.mem[d].refcnt == 0;
      assert !CountOk(t, d);
    }
  }

  /** The state after detach, header by header: the owner loses a count, or is reset and pooled. */
  lemma DetachShape(s: State, m: Ptr)
    requires Inv(s) && m in s.mem && s.mem[m].indirect
    ensures FromIndirect(s.mem[m]) in s.mem
    ensures var d := FromIndirect(s.mem[m]);
            var t := DetachS(s, m);
            var last := s.mem[d].refcnt == 1;
            && t.mem.Keys == s.mem.Keys && t.refs == s.refs && d != m && m !in s.free && d !in s.free
            && t.mem[m] == Restored(m, s.mem[m])
            && s.mem[d].refcnt >= 1
            && t.mem[d] == (if last then Unlinked(s.mem[d]) else s.mem[d].(refcnt := s.mem[d].refcnt - 1))
            && t.free == (if last then s.free + {d} else s.free)
            && forall p :: p in s.mem && p != m && p != d ==> t.mem[p] == s.mem[p]
  {
    assert HeaderOk(s.mem, m);
    var d := FromIndirect(s.mem[m]);
    IndirectUnattached(s, m);
    assert HeaderOk(s.mem, d) && CountOk(s, d);
  }

  /** After detach the owner has one holder fewer, and is in its pool exactly when that was
      the last one. */
  lemma DetachKeepsInv(s: State, m: Ptr)
    requires Inv(s) && m in s.mem && s.mem[m].indirect
    ensures FromIndirect(s.mem[m]) in s.mem
    ensures Inv(DetachS(s, m))
    ensures var d := FromIndirect(s.mem[m]);
            && d != m
            && Attached(DetachS(s, m).mem, d) == Attached(s.mem, d) - {m}
            && (forall e :: e != d ==> Attached(DetachS(s, m).mem, e) == Attached(s.mem, e))
            && DetachS(s, m).free == s.free + (if Holders(s, d) == 1 then {d} else {})
  {
    DetachShape(s, m);
    IndirectUnattached(s, m);
    var d := FromIndirect(s.mem[m]);
    var t := DetachS(s, m);
    assert HeaderOk(s.mem, m) && HeaderOk(s.mem, d);
    assert CountOk(s, d) && CountOk(s, m);
    assert PointedAt(t, s, m, d);
    PointedAtAttached(t, s, m, d);
    RetargetKeepsInv(s, t, m, d);
  }

  lemma ShareKeepsInv(s: State, m: Ptr, v: int)
    requires Inv(s) && Enabled(s, Share(m, v))
    ensures Inv(ShareS(s, m, v))
    ensures forall d :: Attached(ShareS(s, m, v).mem, d) == Attached(s.mem, d)
  {
    assert HeaderOk(s.mem, m) && CountOk(s, m);
    var x := s.mem[m].(refcnt := s.mem[m].refcnt + v);
    assert RefcntAdd(s.mem, m, v) == s.mem[m := x];
    UpdateKeepsInv(s, m, x, s.free, s.refs[m] + v);
  }

  /** An update of the counter by v, up or down, keeps the invariant exactly when it leaves the
      counter above zero and inside 16 bits. */
  lemma ShareExact(s: State, m: Ptr, v: int)
    requires Inv(s) && Held(s, m) && s.refs[m] + v >= 0
    ensures Inv(ShareS(s, m, v)) <==> 0 < s.mem[m].refcnt + v < U16
  {
    assert HeaderOk(s.mem, m) && CountOk(s, m);
    if 0 < s.mem[m].refcnt + v < U16 {
      ShareKeepsInv(s, m, v);
    } else {
      var t := ShareS(s, m, v);
      AttachedSame(s.mem, m, t.mem[m]);
      assert !CountOk(t, m);
    }
  }

  /** What giving back one reference to m does to the rest of memory: attachments only change if
      m itself dies, and every mbuf that survives keeps its header but for the counter. */
  ghost predicate FreedOne(s: State, m: Ptr, t: State)
    requires Held(s, m)
  {
    && t.refs == s.refs[m := s.refs[m] - 1]
    && t.mem.Keys == s.mem.Keys
    && (forall d :: Attached(t.mem, d) == if t.refs[m] == 0 then Attached(s.mem, d) - {m} else Attached(s.mem, d))
    && s.free <= t.free
    && (forall p :: p in t.mem && p !in t.free ==> t.mem[p] == s.mem[p].(refcnt := t.mem[p].refcnt))
    && (forall p :: p in t.mem && p in s.free ==> t.mem[p] == s.mem[p])
    && (forall p :: p in t.mem ==> t.mem[p].room == s.mem[p].room && t.mem[p].pool == s.mem[p].pool)
  }

  /** The state after giving back a reference to m that keeps m's own buffer where it is. */
  lemma FreeInPlaceShape(s: State, m: Ptr)
    requires Inv(s) && Held(s, m) && (s.mem[m].refcnt > 1 || !s.mem[m].indirect)
    ensures FromIndirect(s.mem[m]) in s.mem && s.mem[m].refcnt >= 1
    ensures var last := s.mem[m].refcnt == 1;
            FreeSegS(s, m) == State(
              s.mem[m := if last then Unlinked(s.mem[m]) else s.mem[m].(refcnt := s.mem[m].refcnt - 1)],
              if last then s.free + {m} else s.free,
              s.refs[m := s.refs[m] - 1])
  {
    assert HeaderOk(s.mem, m) && CountOk(s, m);
  }

  lemma FreeInPlace(s: State, m: Ptr)
    requires Inv(s) && Held(s, m) && (s.mem[m].refcnt > 1 || !s.mem[m].indirect)
    ensures FromIndirect(s.mem[m]) in s.mem
    ensures Inv(FreeSegS(s, m))
    ensures forall d :: Attached(FreeSegS(s, m).mem, d) == Attached(s.mem, d)
    ensures s.refs[m] == 1 ==> !s.mem[m].indirect
    ensures m !in s.free
  {
    FreeInPlaceShape(s, m);
    assert HeaderOk(s.mem, m) && CountOk(s, m);
    if s.mem[m].indirect { IndirectUnattached(s, m); }
    if s.mem[m].refcnt == 1 {
      SoleHolder(s, m);
      UpdateKeepsInv(s, m, Unlinked(s.mem[m]), s.free + {m}, 0);
    } else {
      UpdateKeepsInv(s, m, s.mem[m].(refcnt := s.mem[m].refcnt - 1), s.free, s.refs[m] - 1);
    }
  }

  lemma FreeInPlaceFrame(s: State, m: Ptr, t: State, x: Mbuf)
    requires Held(s, m) && m !in s.free && (s.refs[m] == 1 ==> !s.mem[m].indirect)
    requires t.mem == s.mem[m := x] && t.refs == s.refs[m := s.refs[m] - 1]
    requires x.room == s.mem[m].room && x.pool == s.mem[m].pool
    requires t.free == s.free + {m} || (t.free == s.free && x == s.mem[m].(refcnt := x.refcnt))
    requires forall d :: Attached(t.mem, d) == Attached(s.mem, d)
    ensures FreedOne(s, m, t)
  {
    assert s.refs[m] == 1 ==> forall d :: m !in Attached(s.mem, d);
  }

  /** The state after the last reference to an indirect mbuf is given back, header by header. */
  lemma FreeIndirectShape(s: State, m: Ptr)
    requires Inv(s) && Held(s, m) && s.mem[m].refcnt == 1 && s.mem[m].indirect
    ensures FromIndirect(s.mem[m]) in s.mem
    ensures var u := DetachS(s, m);
            && FreeSegS(s, m) == State(u.mem[m := Unlinked(u.mem[m])], u.free + {m}, u.refs[m := 0])
            && Held(u, m) && !u.mem[m].indirect && u.mem[m].refcnt == 1 && s.refs[m] == 1
            && SameBuffer(u.mem[m], Unlinked(u.mem[m])) && RawFreeable(Unlinked(u.mem[m]))
            && u.free - {m} == (u.free + {m}) - {m}
  {
    DetachShape(s, m);
    SoleHolder(s, m);
  }

  lemma FreeLastIndirect(s: State, m: Ptr)
    requires Inv(s) && Held(s, m) && s.mem[m].refcnt == 1 && s.mem[m].indirect
    ensures FromIndirect(s.mem[m]) in s.mem
    ensures Inv(FreeSegS(s, m))
    ensures forall d :: Attached(FreeSegS(s, m).mem, d) == Attached(DetachS(s, m).mem, d)
  {
    FreeIndirectShape(s, m);
    DetachKeepsInv(s, m);
    var u := DetachS(s, m);
    SoleHolder(u, m);
    assert HeaderOk(u.mem, m);
    UpdateKeepsInv(u, m, Unlinked(u.mem[m]), u.free + {m}, 0);
  }

  lemma FreeLastFrame(s: State, m: Ptr, u: State, t: State)
    requires Held(s, m) && s.refs[m] == 1 && s.mem[m].indirect && m !in s.free && s.free <= s.mem.Keys
    requires var d := FromIndirect(s.mem[m]);
             && d in s.mem && d != m && d !in s.free && u.mem.Keys == s.mem.Keys && u.refs == s.refs
             && u.mem[m] == Restored(m, s.mem[m])
             && ((u.mem[d] == s.mem[d].(refcnt := u.mem[d].refcnt) && u.free == s.free)
                 || (u.mem[d] == Unlinked(s.mem[d]) && u.free == s.free + {d}))
             && forall p :: p in s.mem && p != m && p != d ==> u.mem[p] == s.mem[p]
    requires t == State(u.mem[m := Unlinked(u.mem[m])], u.free + {m}, u.refs[m := 0])
    requires forall e :: Attached(t.mem, e) == Attached(s.mem, e) - {m}
    ensures FreedOne(s, m, t)
  {
  }

  lemma AttachedElsewhere(mem: Memory, m: Ptr)
    requires m in mem
    ensures forall d :: d != FromIndirect(mem[m]) ==> Attached(mem, d) - {m} == Attached(mem, d)
  {
    forall d | d != FromIndirect(mem[m]) ensures Attached(mem, d) - {m} == Attached(mem, d) {
      assert m !in Attached(mem, d);
    }
  }

  lemma FreeLastFramed(s: State, m: Ptr)
    requires Inv(s) && Held(s, m) && s.mem[m].refcnt == 1 && s.mem[m].indirect
    requires FromIndirect(s.mem[m]) in s.mem
    requires forall e :: Attached(FreeSegS(s, m).mem, e) == Attached(s.mem, e) - {m}
    ensures FreedOne(s, m, FreeSegS(s, m))
  {
    SoleHolder(s, m);
    FreeIndirectShape(s, m);
    DetachShape(s, m);
    hide FreeSegS, DetachS, Inv, RawFreeable, SameBuffer, HeaderOk, CountOk, Holders, Attached, FreedOne;
    FreeLastFrame(s, m, DetachS(s, m), FreeSegS(s, m));
  }

  lemma FreeLastKeepsInv(s: State, m: Ptr)
    requires Inv(s) && Held(s, m) && s.mem[m].refcnt == 1 && s.mem[m].indirect
    ensures FromIndirect(s.mem[m]) in s.mem
    ensures Inv(FreeSegS(s, m)) && FreedOne(s, m, FreeSegS(s, m))
  {
    FreeLastIndirect(s, m);
    DetachKeepsInv(s, m);
    AttachedElsewhere(s.mem, m);
    hide FreeSegS, DetachS, Inv, Attached, FreedOne;
    FreeLastFramed(s, m);
  }

  lemma FreeSegKeepsInv(s: State, m: Ptr)
    requires Inv(s) && Held(s, m)
    ensures FromIndirect(s.mem[m]) in s.mem
    ensures Inv(FreeSegS(s, m)) && FreedOne(s, m, FreeSegS(s, m))
  {
    assert CountOk(s, m);
    if s.mem[m].refcnt > 1 || !s.mem[m].indirect {
      FreeInPlaceShape(s, m);
      FreeInPlace(s, m);
      hide FreeSegS;
      FreeInPlaceFrame(s, m, FreeSegS(s, m), FreeSegS(s, m).mem[m]);
    } else {
      FreeLastKeepsInv(s, m);
    }
  }

  lemma EditKeepsInv(s: State, m: Ptr, x: Mbuf)
    requires Inv(s) && m in s.mem && m !in s.free
    requires SameBuffer(s.mem[m], x) && x.refcnt == s.mem[m].refcnt && HeaderOk(s.mem[m := x], m)
    ensures Inv(s.(mem := s.mem[m := x]))
    ensures forall d :: Attached(s.mem[m := x], d) == Attached(s.mem, d)
  {
    assert CountOk(s, m);
    UpdateKeepsInv(s, m, x, s.free, s.refs[m]);
    assert s.refs[m := s.refs[m]] == s.refs;
  }

  lemma WriteKeepsInv(s: State, d: Ptr, room: seq<Byte>)
    requires Inv(s) && Enabled(s, Write(d, room))
    ensures Inv(Apply(s, Write(d, room)))
    ensures forall e :: Attached(Apply(s, Write(d, room)).mem, e) == Attached(s.mem, e)
  {
    assert HeaderOk(s.mem, d) && CountOk(s, d);
    UpdateKeepsInv(s, d, s.mem[d].(room := room), s.free, s.refs[d]);
    assert s.refs[d := s.refs[d]] == s.refs;
  }

  // ---------- Every run ----------

  lemma StepKeepsInv(s: State, e: Event)
    requires Inv(s) && Enabled(s, e)
    ensures Inv(Apply(s, e)) && Apply(s, e).mem.Keys == s.mem.Keys
  {
    match e
    case Alloc(p) => AllocKeepsInv(s, p);
    case Attach(mi, m) => AttachKeepsInv(s, mi, m);
    case Detach(m) => DetachKeepsInv(s, m);
    case Share(m, v) => ShareKeepsInv(s, m, v);
    case FreeSeg(m) => FreeSegKeepsInv(s, m);
    case Edit(m, l) => assert CountOk(s, m); assert HeaderOk(s.mem, m); EditKeepsInv(s, m, Relaid(s.mem[m], l));
    case Write(d, room) => WriteKeepsInv(s, d, room);
  }

  ghost predicate IsRun(s: State, es: seq<Event>, t: State)
    decreases |es|
  {
    if es == [] then s == t else Enabled(s, es[0]) && IsRun(Apply(s, es[0]), es[1..], t)
  }

  /** In every run, from any state satisfying the invariant: a live mbuf's counter is its number
      of holders, an mbuf is in its pool exactly when it has none, and every pooled mbuf is ready
      to be handed out again; no mbuf ever leaves memory. */
  lemma {:induction false} RunKeepsCounts(s: State, es: seq<Event>, t: State)
    requires Inv(s) && IsRun(s, es, t)
    ensures Inv(t) && t.mem.Keys == s.mem.Keys
    ensures forall p :: p in t.mem ==> (p in t.free <==> Holders(t, p) == 0)
    ensures forall p :: p in t.mem && p !in t.free ==> t.mem[p].refcnt == Holders(t, p)
    ensures forall p :: p in t.free ==> RawFreeable(t.mem[p])
    decreases |es|
  {
    if es == [] {
      forall p | p in t.mem ensures CountOk(t, p) {}
    } else {
      StepKeepsInv(s, es[0]);
      RunKeepsCounts(Apply(s, es[0]), es[1..], t);
    }
  }
}
