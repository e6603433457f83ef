/** Packets as chains of segments: their bytes, what releasing one does, and what a clone is. */
module MbufPacket {
  import opened Bits
  import opened MbufHeap

  // ---------- Chains ----------

  ghost predicate Distinct(segs: seq<Ptr>) {
    forall i, j :: 0 <= i < j < |segs| ==> segs[i] != segs[j]
  }

  ghost predicate AllIn(mem: Memory, segs: seq<Ptr>) {
    forall i :: 0 <= i < |segs| ==> segs[i] in mem
  }

  /** segs is the chain of next pointers that starts at head. */
  ghost predicate Linked(mem: Memory, head: Ptr, segs: seq<Ptr>) {
    && |segs| > 0 && segs[0] == head && Distinct(segs)
    && (forall i :: 0 <= i < |segs| ==> segs[i] in mem && segs[i] != NULL)
    && (forall i :: 0 <= i < |segs| - 1 ==> mem[segs[i]].next == segs[i + 1])
    && mem[segs[|segs| - 1]].next == NULL
  }

  ghost predicate AllHeld(s: State, segs: seq<Ptr>) {
    forall i :: 0 <= i < |segs| ==> Held(s, segs[i])
  }

  ghost function SumLen(mem: Memory, segs: seq<Ptr>): nat
    requires AllIn(mem, segs)
  {
    if segs == [] then 0 else mem[segs[0]].dataLen + SumLen(mem, segs[1..])
  }

  /** A well-formed packet the application holds: the head counts the segments and the bytes. */
  ghost predicate Packet(s: State, head: Ptr, segs: seq<Ptr>) {
    && Linked(s.mem, head, segs)
    && AllHeld(s, segs)
    && s.mem[head].nbSegs == |segs|
    && s.mem[head].pktLen == SumLen(s.mem, segs)
  }

  ghost predicate DataOk(mem: Memory, p: Ptr) {
    && p in mem && FromIndirect(mem[p]) in mem
    && mem[p].dataOff + mem[p].dataLen <= |mem[FromIndirect(mem[p])].room|
  }

  ghost predicate AllData(mem: Memory, segs: seq<Ptr>)
    ensures AllData(mem, segs) ==> AllIn(mem, segs)
  {
    forall i :: 0 <= i < |segs| ==> DataOk(mem, segs[i])
  }

  /** The bytes of one segment, read from the buffer it points into. */
  ghost function Data(mem: Memory, p: Ptr): (r: seq<Byte>)
    requires DataOk(mem, p)
    ensures |r| == mem[p].dataLen
  {
    mem[FromIndirect(mem[p])].room[mem[p].dataOff..mem[p].dataOff + mem[p].dataLen]
  }

  ghost function Bytes(mem: Memory, segs: seq<Ptr>): (r: seq<Byte>)
    requires AllData(mem, segs)
    ensures |r| == SumLen(mem, segs)
  {
    if segs == [] then [] else Data(mem, segs[0]) + Bytes(mem, segs[1..])
  }

  lemma InvData(s: State, p: Ptr)
    requires Inv(s) && p in s.mem
    ensures DataOk(s.mem, p)
    ensures |s.mem[FromIndirect(s.mem[p])].room| == s.mem[p].bufLen
  {
    assert HeaderOk(s.mem, p);
    assert HeaderOk(s.mem, FromIndirect(s.mem[p]));
  }

  lemma InvBytes(s: State, segs: seq<Ptr>)
    requires Inv(s) && AllIn(s.mem, segs)
    ensures AllData(s.mem, segs)
  {
    forall i | 0 <= i < |segs| ensures DataOk(s.mem, segs[i]) { InvData(s, segs[i]); }
  }

  lemma {:induction false} BytesConcat(mem: Memory, a: seq<Ptr>, b: seq<Ptr>)
    requires AllData(mem, a)
    requires AllData(mem, b)
    ensures AllData(mem, a + b)
    ensures Bytes(mem, a + b) == Bytes(mem, a) + Bytes(mem, b)
  {
    hide Data, DataOk;
    if a == [] {
      assert a + b == b;
    } else {
      BytesConcat(mem, a[1..], b);
      assert (a + b)[1..] == a[1..] + b && (a + b)[0] == a[0];
      Associates(Data(mem, a[0]), Bytes(mem, a[1..]), Bytes(mem, b));
    }
  }

  lemma Associates(x: seq<Byte>, y: seq<Byte>, z: seq<Byte>)
    ensures x + (y + z) == (x + y) + z
  {
  }

  /** Segments that show the same bytes, one by one, make the same packet. */
  lemma {:induction false} BytesSame(mem: Memory, a: seq<Ptr>, mem': Memory, b: seq<Ptr>)
    requires |a| == |b|
    requires AllData(mem, a) && AllData(mem', b)
    requires forall i :: 0 <= i < |a| ==> Data(mem, a[i]) == Data(mem', b[i])
    ensures Bytes(mem, a) == Bytes(mem', b)
  {
    if a != [] { BytesSame(mem, a[1..], mem', b[1..]); }
  }

  /** The total length of a packet never exceeds its 32-bit counter. */
  lemma {:induction false} SumLenBound(mem: Memory, segs: seq<Ptr>)
    requires AllIn(mem, segs) && forall i :: 0 <= i < |segs| ==> mem[segs[i]].dataLen < U16
    ensures SumLen(mem, segs) <= 0xFFFF * |segs|
    ensures |segs| <= MAX_NB_SEGS ==> SumLen(mem, segs) < U32
  {
    if segs != [] { SumLenBound(mem, segs[1..]); }
  }

  // ---------- Fresh and attached mbufs ----------

  /** What is in one pool. */
  ghost function FreeOf(s: State, mp: Pool): set<Ptr> {
    set p | p in s.free && p in s.mem && s.mem[p].pool == mp
  }

  lemma OneSegment(s: State, m: Ptr)
    requires Inv(s) && Held(s, m) && s.mem[m].next == NULL && s.mem[m].pktLen == s.mem[m].dataLen
    ensures Packet(s, m, [m]) && AllData(s.mem, [m]) && DataOk(s.mem, m) && Bytes(s.mem, [m]) == Data(s.mem, m)
  {
    InvBytes(s, [m]);
    assert HeaderOk(s.mem, m) && DataOk(s.mem, m);
    assert SumLen(s.mem, [m][1..]) == 0 && Bytes(s.mem, [m][1..]) == [];
  }

  /** A fresh mbuf is a packet without a byte, whatever it was used for before. */
  lemma AllocatedPacket(s: State, p: Ptr)
    requires Inv(s) && p in s.free && p in s.mem
    ensures var t := AllocS(s, p);
            && Inv(t) && Packet(t, p, [p]) && AllData(t.mem, [p]) && Bytes(t.mem, [p]) == []
            && t.mem[p].dataOff == Min(HEADROOM, t.mem[p].bufLen)
  {
    AllocKeepsInv(s, p);
    OneSegment(AllocS(s, p), p);
  }

  /** An attached mbuf is a packet of what the other one shows. */
  lemma AttachedShows(s: State, mi: Ptr, m: Ptr)
    requires Inv(s) && Enabled(s, Attach(mi, m))
    ensures var t := AttachS(s, mi, m);
            && Inv(t) && Packet(t, mi, [mi]) && t.mem[mi].indirect && DataOk(s.mem, m) && AllData(t.mem, [mi])
            && Bytes(t.mem, [mi]) == Data(s.mem, m)
  {
    AttachKeepsInv(s, mi, m);
    AttachShape(s, mi, m);
    var t := AttachS(s, mi, m);
    OneSegment(t, mi);
    InvData(s, m);
    DataView(s.mem, m, t.mem, mi);
  }

  // ---------- Releasing ----------

  ghost function Dead(refs: map<Ptr, nat>, segs: seq<Ptr>): set<Ptr> {
    set p | p in segs && p in refs && refs[p] == 0
  }

  /** What giving back one reference to each of segs does to the rest of memory. */
  ghost predicate FreedAll(s: State, segs: seq<Ptr>, t: State) {
    && t.refs.Keys == s.refs.Keys && t.mem.Keys == s.mem.Keys
    && (forall p :: p in s.refs ==> t.refs[p] + (if p in segs then 1 else 0) == s.refs[p])
    && (forall d :: Attached(t.mem, d) == Attached(s.mem, d) - Dead(t.refs, segs))
    && s.free <= t.free
    && (forall p :: p in t.mem && p !in t.free ==> t.mem[p] == s.mem[p].(refcnt := t.mem[p].refcnt))
    && (forall p :: p in t.mem && p in s.free ==> t.mem[p] == s.mem[p])
    && (forall p :: p in t.mem ==> t.mem[p].room == s.mem[p].room && t.mem[p].pool == s.mem[p].pool)
  }

  lemma FreedNone(s: State)
    ensures FreedAll(s, [], s)
  {
  }

  lemma DeadStep(refs: map<Ptr, nat>, a: seq<Ptr>, m: Ptr)
    requires m in refs && refs[m] >= 1 && m !in a
    ensures var refs' := refs[m := refs[m] - 1];
            Dead(refs', a + [m]) == Dead(refs, a) + (if refs'[m] == 0 then {m} else {})
  {
  }

  lemma FreedStep(s: State, a: seq<Ptr>, t: State, m: Ptr, u: State)
    requires FreedAll(s, a, t) && Held(t, m) && m !in a && FreedOne(t, m, u)
    requires t.refs.Keys == t.mem.Keys
    ensures FreedAll(s, a + [m], u)
  {
    DeadStep(t.refs, a, m);
    assert forall p :: p in u.mem && p !in u.free ==> p !in t.free;
  }

  /** While a packet is being freed, the segments not yet reached are still held and linked. */
  lemma FreeReached(s: State, head: Ptr, segs: seq<Ptr>, k: nat, t: State)
    requires Inv(t) && Linked(s.mem, head, segs) && AllHeld(s, segs) && k < |segs|
    requires FreedAll(s, segs[..k], t)
    ensures segs[k] !in segs[..k] && Held(t, segs[k])
    ensures t.mem[segs[k]].next == if k + 1 < |segs| then segs[k + 1] else NULL
  {
    assert Held(s, segs[k]);
    assert CountOk(t, segs[k]);
  }

  lemma FreeStep(s: State, a: seq<Ptr>, t: State, m: Ptr)
    requires Inv(t) && FreedAll(s, a, t) && Held(t, m) && m !in a
    ensures FromIndirect(t.mem[m]) in t.mem
    ensures Inv(FreeSegS(t, m)) && FreedAll(s, a + [m], FreeSegS(t, m))
  {
    FreeSegKeepsInv(t, m);
    FreedStep(s, a, t, m, FreeSegS(t, m));
  }

  /** The application's references and the attachments determine the pools and all counters. */
  lemma HoldersDetermine(s: State, t: State)
    requires Inv(s) && Inv(t) && s.mem.Keys == t.mem.Keys && s.refs == t.refs
    requires forall d :: Attached(s.mem, d) == Attached(t.mem, d)
    ensures s.free == t.free
    ensures forall p :: p in s.mem ==> s.mem[p].refcnt == t.mem[p].refcnt
  {
    forall p | p in s.mem ensures (p in s.free <==> p in t.free) && s.mem[p].refcnt == t.mem[p].refcnt {
      assert CountOk(s, p) && CountOk(t, p);
    }
  }

  // ---------- Cloning ----------

  /** How many of segs point into the buffer of d. */
  ghost function Uses(mem: Memory, segs: seq<Ptr>, d: Ptr): nat
    requires AllIn(mem, segs)
  {
    if segs == [] then 0
    else
      var k := |segs| - 1;
      Uses(mem, segs[..k], d) + (if FromIndirect(mem[segs[k]]) == d then 1 else 0)
  }

  lemma {:induction false} UsesPrefix(mem: Memory, segs: seq<Ptr>, k: nat, d: Ptr)
    requires k <= |segs| && AllIn(mem, segs)
    ensures Uses(mem, segs[..k], d) <= Uses(mem, segs, d)
  {
    if k < |segs| {
      UsesPrefix(mem, segs[..|segs| - 1], k, d);
      assert segs[..|segs| - 1][..k] == segs[..k];
    } else {
      assert segs[..k] == segs;
    }
  }

  /** The clones that were attached to the buffer of d. */
  ghost function ClonesOf(mem: Memory, src: seq<Ptr>, dst: seq<Ptr>, d: Ptr): set<Ptr>
    requires |dst| == |src| && AllIn(mem, src)
  {
    set i | 0 <= i < |src| && FromIndirect(mem[src[i]]) == d :: dst[i]
  }

  predicate SameView(x: Mbuf, y: Mbuf) {
    && x.bufAddr == y.bufAddr && x.privSize == y.privSize && x.bufLen == y.bufLen
    && x.dataOff == y.dataOff && x.dataLen == y.dataLen
  }

  /** dst were taken from the pools, one reference each, and nothing else was. */
  ghost predicate Taken(s: State, dst: seq<Ptr>, t: State) {
    && Distinct(dst)
    && (forall i :: 0 <= i < |dst| ==> dst[i] in s.free)
    && t.mem.Keys == s.mem.Keys && t.refs.Keys == s.refs.Keys
    && t.free == s.free - (set p | p in dst)
    && (forall p :: p in s.refs ==> t.refs[p] == if p in dst then 1 else s.refs[p])
  }

  ghost predicate AttachedTo(s: State, src: seq<Ptr>, dst: seq<Ptr>, t: State)
    requires AllIn(s.mem, src) && |dst| == |src|
  {
    forall d :: Attached(t.mem, d) == Attached(s.mem, d) + ClonesOf(s.mem, src, dst, d)
  }

  /** Outside dst only counters moved, each by the number of segments of src using that buffer. */
  ghost predicate CountersMoved(s: State, src: seq<Ptr>, dst: seq<Ptr>, t: State)
    requires AllIn(s.mem, src) && t.mem.Keys == s.mem.Keys
  {
    forall p :: p in s.mem && p !in dst ==>
      t.mem[p] == s.mem[p].(refcnt := s.mem[p].refcnt + Uses(s.mem, src, p))
  }

  ghost predicate Views(s: State, src: seq<Ptr>, dst: seq<Ptr>, t: State)
    requires AllIn(s.mem, src) && |dst| == |src| && AllIn(t.mem, dst)
  {
    forall i :: 0 <= i < |dst| ==> t.mem[dst[i]].indirect && SameView(t.mem[dst[i]], s.mem[src[i]])
  }

  /** dst are fresh indirect mbufs, one for each of src, and nothing else changed but the
      counters of the buffers now used once more. */
  ghost predicate Cloned(s: State, src: seq<Ptr>, dst: seq<Ptr>, t: State)
    requires AllIn(s.mem, src)
  {
    && |dst| == |src| && Taken(s, dst, t) && AttachedTo(s, src, dst, t)
    && CountersMoved(s, src, dst, t)
    && AllIn(t.mem, dst) && Views(s, src, dst, t)
  }

  /** A held segment and the owner of its buffer are both outside the pools. */
  lemma HeldIsLive(s: State, p: Ptr)
    requires Inv(s) && Held(s, p)
    ensures p !in s.free && FromIndirect(s.mem[p]) in s.mem && FromIndirect(s.mem[p]) !in s.free
  {
    assert CountOk(s, p) && HeaderOk(s.mem, p);
    if s.mem[p].indirect { IndirectUnattached(s, p); }
  }

  lemma DataView(mem: Memory, p: Ptr, mem': Memory, p': Ptr)
    requires DataOk(mem, p) && DataOk(mem', p')
    requires SameView(mem[p], mem'[p'])
    requires mem[FromIndirect(mem[p])].room == mem'[FromIndirect(mem[p])].room
    ensures Data(mem, p) == Data(mem', p')
  {
  }

  lemma ClonedData(s: State, src: seq<Ptr>, dst: seq<Ptr>, t: State, i: nat)
    requires Inv(s) && AllIn(s.mem, src) && AllHeld(s, src) && i < |src|
    requires Cloned(s, src, dst, t)
    requires DataOk(s.mem, src[i]) && DataOk(t.mem, src[i]) && DataOk(t.mem, dst[i])
    ensures Data(t.mem, dst[i]) == Data(s.mem, src[i]) == Data(t.mem, src[i])
  {
    HeldIsLive(s, src[i]);
    var d := FromIndirect(s.mem[src[i]]);
    assert src[i] !in dst && d !in dst;
    DataView(s.mem, src[i], t.mem, dst[i]);
    DataView(s.mem, src[i], t.mem, src[i]);
  }

  /** A clone shows the bytes of the original, and the original still does. */
  lemma ClonedBytes(s: State, src: seq<Ptr>, dst: seq<Ptr>, t: State)
    requires Inv(s) && Inv(t)
    requires AllIn(s.mem, src) && AllHeld(s, src)
    requires Cloned(s, src, dst, t)
    ensures AllData(s.mem, src) && AllData(t.mem, src) && AllData(t.mem, dst)
    ensures Bytes(t.mem, dst) == Bytes(s.mem, src) == Bytes(t.mem, src)
  {
    InvBytes(s, src);
    assert AllIn(t.mem, src) && AllIn(t.mem, dst);
    InvBytes(t, src);
    InvBytes(t, dst);
    forall i | 0 <= i < |src|
      ensures Data(t.mem, dst[i]) == Data(s.mem, src[i]) == Data(t.mem, src[i])
    {
      ClonedData(s, src, dst, t, i);
    }
    BytesSame(s.mem, src, t.mem, dst);
    BytesSame(s.mem, src, t.mem, src);
  }

  /** Clone followed by free is the identity on the pools, on the counters, and on every live
      header. */
  lemma CloneThenFree(s: State, src: seq<Ptr>, dst: seq<Ptr>, t: State, u: State)
    requires Inv(s) && Inv(u)
    requires AllIn(s.mem, src)
    requires Cloned(s, src, dst, t) && FreedAll(t, dst, u)
    ensures u.free == s.free && u.refs == s.refs && u.mem.Keys == s.mem.Keys
    ensures forall p :: p in s.mem ==> u.mem[p].refcnt == s.mem[p].refcnt && u.mem[p].room == t.mem[p].room
    ensures forall p :: p in s.mem && p !in s.free ==> u.mem[p] == s.mem[p]
  {
    forall p | p in s.refs ensures u.refs[p] == s.refs[p] {
      assert CountOk(s, p);
    }
    assert u.refs == s.refs;
    forall d ensures Attached(u.mem, d) == Attached(s.mem, d) {
      forall q | q in dst ensures q in Dead(u.refs, dst) && q !in Attached(s.mem, d) {
        assert q in s.free && CountOk(s, q);
      }
      assert ClonesOf(s.mem, src, dst, d) <= Dead(u.refs, dst);
    }
    HoldersDetermine(s, u);
  }
}
