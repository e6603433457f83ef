/** rte_pktmbuf_linearize: gathering a packet's bytes in its first segment while the others are
    released one by one. */
module MbufLinearize {
  import opened Bits
  import opened MbufHeap
  import opened MbufPacket
  import opened MbufLayout
  import opened MbufGather

  /** A conversion of an unsigned 32-bit value to int. */
  function ToInt32(x: nat): int
    requires x < U32
  {
    if x < 0x8000_0000 then x else x - U32
  }

  /** The test that lets linearize go on: the copy length, held in an int, against the tailroom. */
  predicate GuardPasses(pktLen: nat, dataLen: nat, tailroom: nat)
    requires dataLen <= pktLen < U32
  {
    ToInt32(pktLen - dataLen) <= tailroom
  }

  /** For a packet the test is right, that is, passes exactly when the bytes fit, if and only if
      the copy length fits an int. */
  lemma GuardExact(s: State, head: Ptr, segs: seq<Ptr>)
    requires Inv(s) && Packet(s, head, segs)
    ensures var x := s.mem[head];
            && x.dataLen <= x.pktLen < U32 && x.dataOff + x.dataLen <= x.bufLen < U16
            && ((GuardPasses(x.pktLen, x.dataLen, x.bufLen - x.dataOff - x.dataLen)
                 <==> x.dataOff + x.pktLen <= x.bufLen)
                <==> x.pktLen - x.dataLen < 0x8000_0000)
  {
    hide Inv, Packet;
    PacketHead(s, head, segs);
    HeadWithin(s, head, segs);
    BufLenBound(s, head);
  }

  // ---------- The bytes of the result ----------

  /** The segments after the first fit behind it, in the buffer the first points into. */
  ghost predicate Gatherable(mem: Memory, segs: seq<Ptr>)
    ensures Gatherable(mem, segs) ==> |segs| > 0 && AllIn(mem, segs)
  {
    && |segs| > 0 && AllData(mem, segs) && AllData(mem, segs[1..])
    && var h := mem[segs[0]];
       h.dataOff + h.dataLen + SumLen(mem, segs[1..]) <= |mem[FromIndirect(h)].room|
  }

  ghost function GatheredRoom(mem: Memory, segs: seq<Ptr>): seq<Byte>
    requires Gatherable(mem, segs)
  {
    var h := mem[segs[0]];
    CopiedRoom(mem, FromIndirect(h), h.dataOff + h.dataLen, segs[1..], |segs| - 1)
  }

  /** What one segment in the place of all of segs shows after the copies. */
  ghost function GatheredBytes(mem: Memory, segs: seq<Ptr>): seq<Byte>
    requires Gatherable(mem, segs)
  {
    var h := mem[segs[0]];
    GatheredRoom(mem, segs)[h.dataOff..h.dataOff + h.dataLen + SumLen(mem, segs[1..])]
  }

  /** No copy overlaps its own source, unless they are the same, which is all that rte_memcpy asks
      for. */
  ghost predicate Apart(mem: Memory, segs: seq<Ptr>)
    requires |segs| > 0 && AllIn(mem, segs)
  {
    var h := mem[segs[0]];
    CopiesApart(mem, FromIndirect(h), h.dataOff + h.dataLen, segs[1..], |segs| - 1)
  }

  /** No later segment lies where one before it is moved to. */
  ghost predicate Spared(mem: Memory, segs: seq<Ptr>)
    requires |segs| > 0 && AllIn(mem, segs)
  {
    var h := mem[segs[0]];
    NotOverwritten(mem, FromIndirect(h), h.dataOff + h.dataLen, segs[1..], |segs| - 1)
  }

  ghost predicate KeepsBytes(mem: Memory, segs: seq<Ptr>) {
    Gatherable(mem, segs) && GatheredBytes(mem, segs) == Bytes(mem, segs)
  }

  lemma KeepsIsArrived(mem: Memory, segs: seq<Ptr>)
    requires Gatherable(mem, segs)
    ensures var h := mem[segs[0]];
            (KeepsBytes(mem, segs)
             <==> Arrived(mem, FromIndirect(h), h.dataOff + h.dataLen, segs[1..], |segs| - 1))
  {
    hide SumLen, AllData, CopiedRoom, Bytes;
    var h, rest, k := mem[segs[0]], segs[1..], |segs| - 1;
    var d, at := FromIndirect(h), h.dataOff + h.dataLen;
    FirstOk(mem, segs);
    assert rest[..k] == rest && LenTo(mem, rest, k) == SumLen(mem, rest);
    CopiedBefore(mem, d, at, rest, 0, k);
    LenToNone(mem, rest);
    var r := GatheredRoom(mem, segs);
    assert Bytes(mem, segs) == Data(mem, segs[0]) + Bytes(mem, rest) by { BytesFirst(mem, segs); }
    assert Data(mem, segs[0]) == mem[d].room[..at][h.dataOff..] == r[..at][h.dataOff..] by {
      assert CopiedRoom(mem, d, at, rest, 0) == mem[d].room by { CopiedNone(mem, d, at, rest); }
    }
    assert GatheredBytes(mem, segs) == r[..at][h.dataOff..] + r[at..at + SumLen(mem, rest)];
    SumsAgree(Data(mem, segs[0]), r[at..at + SumLen(mem, rest)], Bytes(mem, rest));
  }

  lemma SumsAgree(a: seq<Byte>, x: seq<Byte>, y: seq<Byte>)
    ensures a + x == a + y <==> x == y
  {
    if a + x == a + y {
      assert (a + x)[|a|..] == x && (a + y)[|a|..] == y;
    }
  }

  lemma BytesFirst(mem: Memory, segs: seq<Ptr>)
    requires |segs| > 0 && AllData(mem, segs)
    ensures AllData(mem, segs[1..]) && Bytes(mem, segs) == Data(mem, segs[0]) + Bytes(mem, segs[1..])
  {
  }

  lemma CopiedNone(mem: Memory, d: Ptr, at: nat, rest: seq<Ptr>)
    requires AllData(mem, rest) && d in mem && at + SumLen(mem, rest) <= |mem[d].room|
    ensures CopiedRoom(mem, d, at, rest, 0) == mem[d].room
  {
  }

  lemma FirstOk(mem: Memory, segs: seq<Ptr>)
    requires |segs| > 0 && AllData(mem, segs)
    ensures DataOk(mem, segs[0])
  {
  }

  lemma SpareKeeps(mem: Memory, segs: seq<Ptr>)
    requires Gatherable(mem, segs) && Spared(mem, segs)
    ensures KeepsBytes(mem, segs)
  {
    hide Arrived, NotOverwritten, GatheredBytes, SumLen;
    var h := mem[segs[0]];
    CopiesArrive(mem, FromIndirect(h), h.dataOff + h.dataLen, segs[1..], |segs| - 1);
    KeepsIsArrived(mem, segs);
  }

  lemma PacketGatherable(s: State, head: Ptr, segs: seq<Ptr>)
    requires Inv(s) && Packet(s, head, segs) && s.mem[head].dataOff + s.mem[head].pktLen <= s.mem[head].bufLen
    ensures Gatherable(s.mem, segs)
    ensures s.mem[head].pktLen == s.mem[head].dataLen + SumLen(s.mem, segs[1..])
  {
    hide Inv;
    InvBytes(s, segs);
    InvData(s, head);
    assert SumLen(s.mem, segs) == s.mem[head].dataLen + SumLen(s.mem, segs[1..]);
  }

  lemma OtherContents(s: State, head: Ptr, segs: seq<Ptr>, mem': Memory)
    requires Inv(s) && Packet(s, head, segs) && SameHeaders(s.mem, mem')
    ensures Inv(s.(mem := mem')) && Packet(s.(mem := mem'), head, segs)
  {
    hide CountOk, SumLen;
    var t := s.(mem := mem');
    forall d ensures Attached(t.mem, d) == Attached(s.mem, d) {
      forall q ensures q in Attached(t.mem, d) <==> q in Attached(s.mem, d) {}
    }
    forall p | p in t.mem ensures HeaderOk(t.mem, p) { assert HeaderOk(s.mem, p); }
    forall p | p in t.mem ensures CountOk(t, p) { SameCount(s, t, p); }
    SumLenSame(s.mem, mem', segs);
    forall i | 0 <= i < |segs| ensures Held(t, segs[i]) { assert Held(s, segs[i]); }
  }

  lemma SameCount(s: State, t: State, p: Ptr)
    requires p in s.mem && p in s.refs && CountOk(s, p) && p in t.mem && t.refs == s.refs && t.free == s.free
    requires Attached(t.mem, p) == Attached(s.mem, p) && t.mem[p] == s.mem[p].(room := t.mem[p].room)
    ensures CountOk(t, p)
  {
  }

  /** Linearize keeps the bytes of a packet, whatever they are, if and only if no segment lies
      where one before it is moved to; and the packet is well formed whatever they are. */
  lemma LinearizeExact(s: State, head: Ptr, segs: seq<Ptr>)
    requires Inv(s) && Packet(s, head, segs) && s.mem[head].dataOff + s.mem[head].pktLen <= s.mem[head].bufLen
    requires Apart(s.mem, segs)
    ensures Spared(s.mem, segs)
       <==> forall mem': Memory :: SameHeaders(s.mem, mem') ==> KeepsBytes(mem', segs)
    ensures forall mem': Memory :: SameHeaders(s.mem, mem') ==>
              Inv(s.(mem := mem')) && Packet(s.(mem := mem'), head, segs)
  {
    hide Inv, Packet, SameHeaders, KeepsBytes, Arrived, CopiesApart, NotOverwritten, SumLen, AllData, FromIndirect;
    PacketGatherable(s, head, segs);
    PacketDistinct(s, head, segs);
    var h := s.mem[head];
    FirstOk(s.mem, segs);
    AllArriveExactly(s.mem, FromIndirect(h), h.dataOff + h.dataLen, segs[1..]);
    forall mem': Memory | SameHeaders(s.mem, mem')
      ensures Inv(s.(mem := mem')) && Packet(s.(mem := mem'), head, segs)
      ensures KeepsBytes(mem', segs)
         <==> Arrived(mem', FromIndirect(h), h.dataOff + h.dataLen, segs[1..], |segs| - 1)
    {
      OtherContents(s, head, segs, mem');
      HeadAgrees(s.mem, mem', head);
      PacketGatherable(s.(mem := mem'), head, segs);
      KeepsIsArrived(mem', segs);
    }
  }

  lemma HeadAgrees(mem: Memory, mem': Memory, p: Ptr)
    requires SameHeaders(mem, mem') && p in mem
    ensures p in mem' && mem'[p] == mem[p].(room := mem'[p].room) && FromIndirect(mem'[p]) == FromIndirect(mem[p])
  {
  }

  // ---------- Writing a buffer and releasing a segment commute ----------

  ghost function WriteRoom(s: State, d: Ptr, room: seq<Byte>): State
    requires d in s.mem
  {
    s.(mem := s.mem[d := s.mem[d].(room := room)])
  }

  lemma WriteThenFree(f: State, d: Ptr, room: seq<Byte>, m: Ptr)
    requires Held(f, m) && d in f.mem && FromIndirect(f.mem[m]) in f.mem
    ensures FreeSegS(WriteRoom(f, d, room), m) == WriteRoom(FreeSegS(f, m), d, room)
  {
    var g := WriteRoom(f, d, room);
    assert g.mem[m].indirect == f.mem[m].indirect && g.mem[m].refcnt == f.mem[m].refcnt;
    if f.mem[m].refcnt == 1 && f.mem[m].indirect {
      WriteThenDetach(f, d, room, m);
      WriteThenUnlink(DetachS(f, m), d, room, m);
    } else if f.mem[m].refcnt == 1 {
      WriteThenUnlink(f, d, room, m);
    } else {
      assert RefcntAdd(g.mem, m, -1) == WriteRoom(f.(mem := RefcntAdd(f.mem, m, -1)), d, room).mem;
    }
  }

  lemma WriteThenUnlink(f: State, d: Ptr, room: seq<Byte>, m: Ptr)
    requires d in f.mem && m in f.mem
    ensures var g := WriteRoom(f, d, room).mem;
            g[m := Unlinked(g[m])] == WriteRoom(f.(mem := f.mem[m := Unlinked(f.mem[m])]), d, room).mem
  {
  }

  lemma WriteThenDetach(f: State, d: Ptr, room: seq<Byte>, m: Ptr)
    requires d in f.mem && m in f.mem && FromIndirect(f.mem[m]) in f.mem
    ensures DetachS(WriteRoom(f, d, room), m) == WriteRoom(DetachS(f, m), d, room)
  {
    var a := DetachS(WriteRoom(f, d, room), m);
    var b := WriteRoom(DetachS(f, m), d, room);
    assert a.free == b.free && a.refs == b.refs;
    forall p | p in a.mem ensures a.mem[p] == b.mem[p] {}
    assert a.mem == b.mem;
  }

  // ---------- The loop ----------

  /** After k passes: the first k of rest released (that is f), and copied into the buffer of d. */
  ghost predicate Gathered(s: State, d: Ptr, at: nat, rest: seq<Ptr>, k: nat, f: State, t: State) {
    && Inv(s) && Inv(f) && k <= |rest| && AllData(s.mem, rest)
    && d in s.mem && d in f.mem && at + SumLen(s.mem, rest) <= |s.mem[d].room|
    && FreedAll(s, rest[..k], f)
    && t == WriteRoom(f, d, CopiedRoom(s.mem, d, at, rest, k))
  }

  lemma Survivor(s: State, segs: seq<Ptr>, f: State, m: Ptr)
    requires Inv(f) && FreedAll(s, segs, f) && Held(f, m)
    ensures f.mem[m] == s.mem[m].(refcnt := f.mem[m].refcnt)
  {
    assert CountOk(f, m);
  }

  lemma ShownThrough(mem: Memory, m: Ptr, d: Ptr, room: seq<Byte>, mem': Memory)
    requires DataOk(mem, m) && DataOk(mem', m) && d in mem && d in mem' && |room| == |mem[d].room|
    requires SameView(mem'[m], mem[m]) && mem'[d].room == room
    requires FromIndirect(mem[m]) != d ==> mem'[FromIndirect(mem[m])].room == mem[FromIndirect(mem[m])].room
    ensures Data(mem', m) == Shown(mem, m, d, room)
  {
  }

  /** Before the copy: the next segment is held and linked, and what it shows by now is what the
      copies so far have left in its buffer. */
  lemma GatherReady(s: State, d: Ptr, at: nat, rest: seq<Ptr>, k: nat, f: State, t: State)
    requires Gathered(s, d, at, rest, k, f, t) && k < |rest|
    requires Linked(s.mem, rest[0], rest) && AllHeld(s, rest)
    ensures var m := rest[k];
            && Inv(t) && Held(t, m) && Held(f, m) && m !in rest[..k] && d in t.mem && DataOk(t.mem, m)
            && SameView(t.mem[m], s.mem[m])
            && t.mem[d].room == CopiedRoom(s.mem, d, at, rest, k)
            && Data(t.mem, m) == Shown(s.mem, m, d, t.mem[d].room)
            && t.mem[m].next == (if k + 1 < |rest| then rest[k + 1] else NULL)
  {
    hide Inv, FreedAll, Linked, AllHeld, SumLen, Data, Shown, CopiedRoom;
    var m := rest[k];
    FreeReached(s, rest[0], rest, k, f);
    Survivor(s, rest[..k], f, m);
    FreedRooms(s, rest[..k], f);
    var room := CopiedRoom(s.mem, d, at, rest, k);
    WriteInv(f, d, room);
    InvData(t, m);
    ShownThrough(s.mem, m, d, room, t.mem);
  }

  /** One pass: t1 is t after the copy of the bytes rest[k] shows, and giving rest[k] back leads on. */
  lemma GatherStep(s: State, d: Ptr, at: nat, rest: seq<Ptr>, k: nat, f: State, t: State, t1: State)
    requires Gathered(s, d, at, rest, k, f, t) && k < |rest|
    requires Held(f, rest[k]) && rest[k] !in rest[..k]
    requires t.mem[d].room == CopiedRoom(s.mem, d, at, rest, k)
    requires t1 == WriteRoom(t, d, Filled(t.mem[d].room, at + LenTo(s.mem, rest, k),
                                          Shown(s.mem, rest[k], d, t.mem[d].room)))
    ensures Inv(t1) && Held(t1, rest[k])
    ensures FromIndirect(f.mem[rest[k]]) in f.mem && FromIndirect(t1.mem[rest[k]]) in t1.mem
    ensures Gathered(s, d, at, rest, k + 1, FreeSegS(f, rest[k]), FreeSegS(t1, rest[k]))
  {
    hide Inv, FreedAll, FreeSegS, SumLen, Filled, Shown, LenTo;
    var m := rest[k];
    FreeStep(s, rest[..k], f, m);
    assert rest[..k] + [m] == rest[..k + 1];
    FreedRooms(s, rest[..k], f);
    FreedRooms(s, rest[..k + 1], FreeSegS(f, m));
    var room := CopiedRoom(s.mem, d, at, rest, k + 1);
    WriteTwice(f, d, CopiedRoom(s.mem, d, at, rest, k), room);
    hide CopiedRoom;
    WriteInv(f, d, room);
    HeldThroughWrite(f, d, room, m);
    WriteThenFree(f, d, room, m);
  }

  lemma WriteTwice(f: State, d: Ptr, a: seq<Byte>, b: seq<Byte>)
    requires d in f.mem
    ensures WriteRoom(WriteRoom(f, d, a), d, b) == WriteRoom(f, d, b)
  {
    assert f.mem[d := f.mem[d].(room := a)][d := f.mem[d].(room := b)] == f.mem[d := f.mem[d].(room := b)];
  }

  lemma HeldThroughWrite(f: State, d: Ptr, room: seq<Byte>, m: Ptr)
    requires Held(f, m) && d in f.mem
    ensures Held(WriteRoom(f, d, room), m)
    ensures FromIndirect(WriteRoom(f, d, room).mem[m]) == FromIndirect(f.mem[m])
  {
  }

  lemma WriteInv(f: State, d: Ptr, room: seq<Byte>)
    requires Inv(f) && d in f.mem && |room| == |f.mem[d].room|
    ensures Inv(WriteRoom(f, d, room))
  {
    WriteKeepsInv(f, d, room);
  }

  lemma FreedRooms(s: State, segs: seq<Ptr>, t: State)
    requires FreedAll(s, segs, t)
    ensures t.mem.Keys == s.mem.Keys && forall p :: p in s.mem ==> t.mem[p].room == s.mem[p].room
  {
  }

  // ---------- Before and after the loop ----------

  /** The head covers the whole packet before its bytes are there. */
  function Stretched(s: State, head: Ptr): State
    requires head in s.mem
  {
    s.(mem := s.mem[head := s.mem[head].(dataLen := s.mem[head].pktLen)])
  }

  /** The packet in one segment: what linearize makes of the head and of the buffer it uses. */
  ghost function Gathering(s: State, head: Ptr, d: Ptr, room: seq<Byte>): State
    requires head in s.mem && d in s.mem
  {
    var t := WriteRoom(s, d, room);
    t.(mem := t.mem[head := t.mem[head].(next := NULL, nbSegs := 1)])
  }

  lemma StretchStart(s: State, head: Ptr, segs: seq<Ptr>)
    requires Inv(s) && Packet(s, head, segs) && |segs| > 1
    requires s.mem[head].dataOff + s.mem[head].pktLen <= s.mem[head].bufLen
    ensures Inv(Stretched(s, head))
    ensures Linked(Stretched(s, head).mem, segs[1], segs[1..]) && AllHeld(Stretched(s, head), segs[1..])
    ensures forall p :: p in segs[1..] ==> p in s.mem && p != head && Stretched(s, head).mem[p] == s.mem[p]
  {
    hide CountOk, Holders, Attached;
    var t := Stretched(s, head);
    var rest := segs[1..];
    SegmentsLive(s, segs);
    assert HeaderOk(s.mem, head);
    EditKeepsInv(s, head, t.mem[head]);
    forall i | 0 <= i < |rest|
      ensures rest[i] in s.mem && rest[i] != head && t.mem[rest[i]] == s.mem[rest[i]] && Held(t, rest[i])
    {
      assert rest[i] == segs[i + 1] && segs[i + 1] != segs[0];
      assert Held(s, segs[i + 1]);
    }
  }

  /** The copies do not look at the head's header, so stretching it changes nothing for them. */
  lemma StretchedCopies(s: State, head: Ptr, segs: seq<Ptr>, k: nat)
    requires Inv(s) && Packet(s, head, segs) && |segs| > 1 && k < |segs| && Gatherable(s.mem, segs)
    requires forall p :: p in segs[1..] ==> p in s.mem && p != head
    ensures var t, d, at := Stretched(s, head), FromIndirect(s.mem[head]), s.mem[head].dataOff + s.mem[head].dataLen;
            && AllData(t.mem, segs[1..]) && SumLen(t.mem, segs[1..]) == SumLen(s.mem, segs[1..])
            && LenTo(t.mem, segs[1..], k) == LenTo(s.mem, segs[1..], k)
            && CopiedRoom(t.mem, d, at, segs[1..], k) == CopiedRoom(s.mem, d, at, segs[1..], k)
  {
    hide Inv, Packet, SumLen, LenTo, CopiedRoom;
    PacketDistinct(s, head, segs);
    var t, rest := Stretched(s, head), segs[1..];
    forall i | 0 <= i < |rest|
      ensures rest[i] in s.mem && t.mem[rest[i]] == s.mem[rest[i]] && DataOk(t.mem, rest[i])
    {
      assert rest[i] in rest && DataOk(s.mem, rest[i]);
    }
    SumLenSame(s.mem, t.mem, rest);
    SameCopies(s.mem, t.mem, FromIndirect(s.mem[head]), s.mem[head].dataOff + s.mem[head].dataLen, rest, k);
  }

  lemma {:induction false} SameCopies(mem: Memory, mem': Memory, d: Ptr, at: nat, rest: seq<Ptr>, k: nat)
    requires AllData(mem, rest) && AllData(mem', rest) && d in mem && k <= |rest|
    requires at + SumLen(mem, rest) <= |mem[d].room| && SumLen(mem', rest) == SumLen(mem, rest)
    requires mem'.Keys == mem.Keys && forall p :: p in mem ==> mem'[p].room == mem[p].room
    requires forall i :: 0 <= i < |rest| ==> mem'[rest[i]] == mem[rest[i]]
    ensures LenTo(mem', rest, k) == LenTo(mem, rest, k)
    ensures CopiedRoom(mem', d, at, rest, k) == CopiedRoom(mem, d, at, rest, k)
  {
    hide SumLen, Filled;
    SumLenSame(mem, mem', rest[..k]);
    if k > 0 {
      SameCopies(mem, mem', d, at, rest, k - 1);
      assert DataOk(mem, rest[k - 1]);
    }
  }

  // ---------- Releasing the rest leaves the head's buffer alone ----------

  /** A change of a live header that does not move its buffer goes through a release. */
  lemma FreedThroughEdit(s: State, rest: seq<Ptr>, f: State, p: Ptr, x: Mbuf, y: Mbuf)
    requires FreedAll(s, rest, f) && p in s.mem && p !in f.free
    requires SameBuffer(s.mem[p], x) && y == x.(refcnt := f.mem[p].refcnt)
    ensures FreedAll(s.(mem := s.mem[p := x]), rest, f.(mem := f.mem[p := y]))
  {
    AttachedSame(s.mem, p, x);
    AttachedSame(f.mem, p, y);
    FreedHeaders(s, rest, f, p, x, y);
    var a, b := s.(mem := s.mem[p := x]), f.(mem := f.mem[p := y]);
    forall e ensures Attached(b.mem, e) == Attached(a.mem, e) - Dead(b.refs, rest) {
      assert Attached(a.mem, e) == Attached(s.mem, e) && Attached(b.mem, e) == Attached(f.mem, e);
    }
  }

  lemma FreedHeaders(s: State, rest: seq<Ptr>, f: State, p: Ptr, x: Mbuf, y: Mbuf)
    requires FreedAll(s, rest, f) && p in s.mem && p !in f.free
    requires p in f.mem && y == x.(refcnt := f.mem[p].refcnt)
    ensures var a, b := s.mem[p := x], f.mem[p := y];
            b.Keys == a.Keys
            && forall q :: q in b ==>
                 && (q !in f.free ==> b[q] == a[q].(refcnt := b[q].refcnt))
                 && (q in s.free ==> b[q] == a[q])
                 && b[q].room == a[q].room && b[q].pool == a[q].pool
  {
    var a, b := s.mem[p := x], f.mem[p := y];
    forall q | q in b
      ensures q in a && (q !in f.free ==> b[q] == a[q].(refcnt := b[q].refcnt)) && (q in s.free ==> b[q] == a[q])
      ensures b[q].room == a[q].room && b[q].pool == a[q].pool
    {
      if q != p { assert q in f.mem && b[q] == f.mem[q] && a[q] == s.mem[q]; }
    }
  }

  /** Releasing is the same when the head and its buffer were finished first. */
  lemma FreedThroughEdits(s: State, rest: seq<Ptr>, f: State, head: Ptr, d: Ptr, room: seq<Byte>)
    requires FreedAll(s, rest, f) && head in s.mem && d in s.mem && head in f.mem && d in f.mem
    requires head !in f.free && d !in f.free
    ensures FreedAll(Gathering(s, head, d, room), rest, Gathering(f, head, d, room))
  {
    FreedLive(s, rest, f, d);
    FreedThroughEdit(s, rest, f, d, s.mem[d].(room := room), f.mem[d].(room := room));
    var s1, f1 := WriteRoom(s, d, room), WriteRoom(f, d, room);
    FreedLive(s1, rest, f1, head);
    FreedThroughEdit(s1, rest, f1, head, s1.mem[head].(next := NULL, nbSegs := 1),
                     f1.mem[head].(next := NULL, nbSegs := 1));
  }

  lemma FreedLive(s: State, rest: seq<Ptr>, f: State, p: Ptr)
    requires FreedAll(s, rest, f) && p in f.mem && p !in f.free
    ensures p in s.mem && f.mem[p] == s.mem[p].(refcnt := f.mem[p].refcnt)
  {
  }

  /** After the loop: one well-formed segment with what was gathered, the others given back. */
  lemma LinearizeDone(s: State, head: Ptr, segs: seq<Ptr>, f: State, t: State)
    requires Inv(s) && Packet(s, head, segs) && |segs| > 1 && Gatherable(s.mem, segs)
    requires s.mem[head].dataOff + s.mem[head].pktLen <= s.mem[head].bufLen
    requires Gathered(Stretched(s, head), FromIndirect(s.mem[head]), s.mem[head].dataOff + s.mem[head].dataLen,
                      segs[1..], |segs| - 1, f, t)
    ensures head in t.mem && FromIndirect(s.mem[head]) in s.mem
    ensures var u := t.(mem := t.mem[head := t.mem[head].(next := NULL, nbSegs := 1)]);
            && Inv(u) && Packet(u, head, [head]) && AllData(u.mem, [head])
            && Bytes(u.mem, [head]) == GatheredBytes(s.mem, segs)
            && FreedAll(Gathering(Stretched(s, head), head, FromIndirect(s.mem[head]), GatheredRoom(s.mem, segs)),
                        segs[1..], u)
  {
    hide Inv, FreedAll, AllHeld, SumLen, Attached, CountOk, HeaderOk, CopiedRoom;
    var rest := segs[1..];
    var d := FromIndirect(s.mem[head]);
    var s1 := Stretched(s, head);
    StretchStart(s, head, segs);
    StretchedCopies(s, head, segs, |segs| - 1);
    assert rest[..|segs| - 1] == rest;
    HeadSurvives(s, head, segs, s1, f, rest);
    FreedRooms(s1, rest, f);
    var room := GatheredRoom(s.mem, segs);
    FreedThroughEdits(s1, rest, f, head, d, room);
    WriteInv(f, d, room);
    BufLenBound(t, head);
    RelinkKeepsInv(t, head, NULL, 1, t.mem[head].pktLen);
    var u := t.(mem := t.mem[head := t.mem[head].(next := NULL, nbSegs := 1)]);
    assert u == Gathering(f, head, d, room);
    PacketGatherable(s, head, segs);
    SingleBytes(s, head, segs, u, room);
    SinglePacket(u, head);
  }

  // ---------- Re-joining a split packet ----------

  /** Every later segment lies just behind what comes before it, in the head's own buffer. */
  ghost predicate Split(mem: Memory, segs: seq<Ptr>)
    requires |segs| > 0 && AllIn(mem, segs)
  {
    var h := mem[segs[0]];
    forall i :: 0 <= i < |segs| - 1 ==>
      InPlace(mem, segs[1..][i], FromIndirect(h), h.dataOff + h.dataLen + LenTo(mem, segs[1..], i))
  }

  /** Linearize puts the parts of a split packet together without changing a byte of the buffer. */
  lemma RejoinKeeps(mem: Memory, segs: seq<Ptr>)
    requires Gatherable(mem, segs) && Split(mem, segs)
    ensures Apart(mem, segs) && Spared(mem, segs) && GatheredBytes(mem, segs) == Bytes(mem, segs)
    ensures GatheredRoom(mem, segs) == mem[FromIndirect(mem[segs[0]])].room
  {
    hide SumLen, CopiedRoom, KeepsBytes, LenTo, Bytes, GatheredBytes;
    FirstOk(mem, segs);
    SpareKeeps(mem, segs);
    KeptBytes(mem, segs);
    var h := mem[segs[0]];
    var room := mem[FromIndirect(h)].room;
    forall y | 0 <= y < |room| ensures GatheredRoom(mem, segs)[y] == room[y] {
      ByteKept(mem, FromIndirect(h), h.dataOff + h.dataLen, segs[1..], |segs| - 1, y);
    }
  }

  lemma KeptBytes(mem: Memory, segs: seq<Ptr>)
    requires KeepsBytes(mem, segs)
    ensures Gatherable(mem, segs) && GatheredBytes(mem, segs) == Bytes(mem, segs)
  {
  }

  // ---------- Other packets ----------

  /** p lies outside the places in the head's buffer that segments are moved to. */
  ghost predicate Bystander(mem: Memory, segs: seq<Ptr>, p: Ptr)
    requires |segs| > 0 && AllIn(mem, segs) && p in mem
  {
    var h := mem[segs[0]];
    Untouched(mem, FromIndirect(h), h.dataOff + h.dataLen, segs[1..], |segs| - 1, p)
  }

  /** What is left of a held mbuf outside the packet: its header but for the counter, and a view of
      the buffers as they are now. */
  lemma BystanderHeld(s: State, head: Ptr, segs: seq<Ptr>, u: State, p: Ptr)
    requires Gatherable(s.mem, segs) && segs[0] == head && Inv(u) && Held(s, p) && p !in segs
    requires FreedAll(Gathering(Stretched(s, head), head, FromIndirect(s.mem[head]), GatheredRoom(s.mem, segs)),
                      segs[1..], u)
    ensures Held(u, p) && SameView(u.mem[p], s.mem[p]) && u.mem[p].next == s.mem[p].next
    ensures u.mem[p].nbSegs == s.mem[p].nbSegs && u.mem[p].pktLen == s.mem[p].pktLen
    ensures u.mem.Keys == s.mem.Keys
    ensures forall q :: q in s.mem ==>
              u.mem[q].room == if q == FromIndirect(s.mem[head]) then GatheredRoom(s.mem, segs) else s.mem[q].room
  {
    FirstOk(s.mem, segs);
    hide GatheredRoom, SumLen, AllData, FreedAll, Inv, Gathering;
    var g := Gathering(Stretched(s, head), head, FromIndirect(s.mem[head]), GatheredRoom(s.mem, segs));
    assert p !in segs[1..] && p != head;
    GatheringView(s, head, FromIndirect(s.mem[head]), GatheredRoom(s.mem, segs), p);
    OutsideRest(g, segs[1..], u, p);
    Survivor(g, segs[1..], u, p);
    FreedRooms(g, segs[1..], u);
  }

  lemma OutsideRest(g: State, rest: seq<Ptr>, u: State, p: Ptr)
    requires FreedAll(g, rest, u) && Held(g, p) && p !in rest
    ensures Held(u, p)
  {
  }

  lemma GatheringView(s: State, head: Ptr, d: Ptr, room: seq<Byte>, p: Ptr)
    requires head in s.mem && d in s.mem && Held(s, p) && p != head
    ensures var g := Gathering(Stretched(s, head), head, d, room);
            && Held(g, p) && SameView(g.mem[p], s.mem[p]) && g.mem[p].next == s.mem[p].next
            && g.mem[p].nbSegs == s.mem[p].nbSegs && g.mem[p].pktLen == s.mem[p].pktLen
            && g.mem.Keys == s.mem.Keys
            && forall q :: q in s.mem ==> g.mem[q].room == if q == d then room else s.mem[q].room
  {
  }

  lemma BystanderData(s: State, head: Ptr, segs: seq<Ptr>, u: State, p: Ptr)
    requires Inv(s) && Gatherable(s.mem, segs) && segs[0] == head && Inv(u) && Held(s, p) && p !in segs
    requires FreedAll(Gathering(Stretched(s, head), head, FromIndirect(s.mem[head]), GatheredRoom(s.mem, segs)),
                      segs[1..], u)
    requires Bystander(s.mem, segs, p)
    ensures DataOk(s.mem, p) && DataOk(u.mem, p) && Data(u.mem, p) == Data(s.mem, p)
  {
    hide Inv, SumLen, CopiedRoom, Untouched, FreedAll, Gathering, Stretched;
    FirstOk(s.mem, segs);
    BystanderHeld(s, head, segs, u, p);
    InvData(s, p);
    InvData(u, p);
    var h := s.mem[head];
    UntouchedShown(s.mem, FromIndirect(h), h.dataOff + h.dataLen, segs[1..], |segs| - 1, p);
    ShownThrough(s.mem, p, FromIndirect(h), GatheredRoom(s.mem, segs), u.mem);
  }

  ghost predicate HeaderKept(s: State, u: State, p: Ptr) {
    && p in s.mem && Held(u, p) && SameView(u.mem[p], s.mem[p]) && u.mem[p].next == s.mem[p].next
    && u.mem[p].nbSegs == s.mem[p].nbSegs && u.mem[p].pktLen == s.mem[p].pktLen
  }

  ghost predicate DataKept(s: State, u: State, p: Ptr) {
    DataOk(s.mem, p) && DataOk(u.mem, p) && Data(u.mem, p) == Data(s.mem, p)
  }

  lemma PacketKept(s: State, u: State, other: Ptr, others: seq<Ptr>)
    requires Packet(s, other, others) && forall i :: 0 <= i < |others| ==> HeaderKept(s, u, others[i])
    ensures Packet(u, other, others)
  {
    hide SumLen;
    forall i | 0 <= i < |others|
      ensures Held(u, others[i]) && u.mem[others[i]].dataLen == s.mem[others[i]].dataLen
      ensures u.mem[others[i]].next == s.mem[others[i]].next
    {
      assert HeaderKept(s, u, others[i]);
    }
    assert HeaderKept(s, u, others[0]);
    SumLenSame(s.mem, u.mem, others);
  }

  lemma BytesKept(s: State, u: State, others: seq<Ptr>)
    requires forall i :: 0 <= i < |others| ==> DataKept(s, u, others[i])
    ensures AllData(s.mem, others) && AllData(u.mem, others) && Bytes(u.mem, others) == Bytes(s.mem, others)
  {
    hide Bytes, Data, DataOk;
    forall i | 0 <= i < |others|
      ensures DataOk(s.mem, others[i]) && DataOk(u.mem, others[i]) && Data(u.mem, others[i]) == Data(s.mem, others[i])
    {
      assert DataKept(s, u, others[i]);
    }
    BytesSame(u.mem, others, s.mem, others);
  }

  /** Another packet the application holds is untouched, bytes and all, if its segments lie outside
      the places that segments are moved to. */
  lemma OtherPacketKept(s: State, head: Ptr, segs: seq<Ptr>, u: State, other: Ptr, others: seq<Ptr>)
    requires Inv(s) && Gatherable(s.mem, segs) && segs[0] == head && Inv(u)
    requires FreedAll(Gathering(Stretched(s, head), head, FromIndirect(s.mem[head]), GatheredRoom(s.mem, segs)),
                      segs[1..], u)
    requires Packet(s, other, others) && forall i :: 0 <= i < |others| ==> others[i] !in segs
    requires forall i :: 0 <= i < |others| ==> Bystander(s.mem, segs, others[i])
    ensures Packet(u, other, others) && AllData(s.mem, others) && AllData(u.mem, others)
    ensures Bytes(u.mem, others) == Bytes(s.mem, others)
  {
    hide Inv, FreedAll, Gathering, Stretched, GatheredRoom, Bystander, Gatherable, Data, SumLen, Bytes, AllData;
    forall i | 0 <= i < |others| ensures HeaderKept(s, u, others[i]) && DataKept(s, u, others[i]) {
      assert Held(s, others[i]);
      BystanderHeld(s, head, segs, u, others[i]);
      BystanderData(s, head, segs, u, others[i]);
    }
    hide Packet, HeaderKept, DataKept;
    PacketKept(s, u, other, others);
    BytesKept(s, u, others);
  }

  /** The condition is exact: when linearize keeps the packet's bytes, an mbuf outside the packet
      shows what it did, whatever the buffers hold, if and only if it lies outside those places. */
  lemma BystanderExact(s: State, head: Ptr, segs: seq<Ptr>, p: Ptr)
    requires Inv(s) && Packet(s, head, segs) && s.mem[head].dataOff + s.mem[head].pktLen <= s.mem[head].bufLen
    requires Apart(s.mem, segs) && Spared(s.mem, segs) && p in s.mem
    ensures var h := s.mem[head];
            (Bystander(s.mem, segs, p)
             <==> forall mem': Memory :: SameHeaders(s.mem, mem') ==>
                    StillShown(mem', FromIndirect(h), h.dataOff + h.dataLen, segs[1..], p))
  {
    hide Inv, Packet, SumLen, CopiesApart, NotOverwritten, Untouched, StillShown, SameHeaders;
    PacketGatherable(s, head, segs);
    PacketDistinct(s, head, segs);
    FirstOk(s.mem, segs);
    InvData(s, p);
    var h := s.mem[head];
    StillShownExactly(s.mem, FromIndirect(h), h.dataOff + h.dataLen, segs[1..], p);
  }

  lemma SinglePacket(s: State, p: Ptr)
    requires Held(s, p) && p != NULL && s.mem[p].next == NULL && s.mem[p].nbSegs == 1
    requires s.mem[p].pktLen == SumLen(s.mem, [p])
    ensures Packet(s, p, [p])
  {
  }

  lemma HeadSurvives(s: State, head: Ptr, segs: seq<Ptr>, s1: State, f: State, rest: seq<Ptr>)
    requires Inv(s) && Packet(s, head, segs) && s1 == Stretched(s, head) && Inv(s1) && Inv(f)
    requires rest == segs[1..] && FreedAll(s1, rest, f)
    ensures Held(f, head) && head !in f.free && head !in s.free
    ensures f.mem[head] == s1.mem[head].(refcnt := f.mem[head].refcnt)
    ensures var d := FromIndirect(s.mem[head]);
            d in s.mem && d !in s.free && d in f.mem && d !in f.free && |s.mem[d].room| == s.mem[head].bufLen
  {
    hide AllHeld, SumLen, HeaderOk, CountOk;
    FirstHeld(s, segs);
    assert head !in rest;
    HeldIsLive(s, head);
    InvData(s, head);
    HeldIsLive(f, head);
    Survivor(s1, rest, f, head);
  }

  lemma FirstHeld(s: State, segs: seq<Ptr>)
    requires AllHeld(s, segs) && |segs| > 0
    ensures Held(s, segs[0])
  {
  }

  lemma SingleBytes(s: State, head: Ptr, segs: seq<Ptr>, u: State, room: seq<Byte>)
    requires Gatherable(s.mem, segs) && segs[0] == head && room == GatheredRoom(s.mem, segs)
    requires s.mem[head].pktLen == s.mem[head].dataLen + SumLen(s.mem, segs[1..])
    requires head in u.mem && Inv(u)
    requires FromIndirect(s.mem[head]) in u.mem && u.mem[FromIndirect(s.mem[head])].room == room
    requires u.mem[head].bufAddr == s.mem[head].bufAddr && u.mem[head].privSize == s.mem[head].privSize
    requires u.mem[head].dataOff == s.mem[head].dataOff && u.mem[head].dataLen == s.mem[head].pktLen
    ensures AllData(u.mem, [head]) && Bytes(u.mem, [head]) == GatheredBytes(s.mem, segs)
    ensures SumLen(u.mem, [head]) == u.mem[head].dataLen
  {
    hide Inv, GatheredRoom, SumLen;
    InvData(u, head);
    SingleSegment(u.mem, head);
  }

  lemma SingleSegment(mem: Memory, p: Ptr)
    requires DataOk(mem, p)
    ensures AllData(mem, [p]) && Bytes(mem, [p]) == Data(mem, p) && SumLen(mem, [p]) == mem[p].dataLen
  {
    assert [p][1..] == [];
    assert Bytes(mem, [p]) == Data(mem, p) + [];
  }
}
