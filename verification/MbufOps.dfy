/** The mbuf operations of src/ext/rte_mbuf.c as they run: each updates packet memory in place,
    step by step, and is proved against the functions of MbufHeap and the packets of MbufPacket. */
module MbufOps {
  import opened Bits
  import opened MbufHeap
  import opened MbufPacket
  import opened MbufClone
  import opened MbufLayout
  import opened MbufGather
  import opened MbufLinearize

  class PacketMemory {
    var mem: Memory
    var free: set<Ptr>
    ghost var refs: map<Ptr, nat>

    ghost function St(): State
      reads this
    {
      State(mem, free, refs)
    }

    // ---------- The pools ----------

    /** rte_mempool_get, which is not part of the repository: it takes some mbuf of the pool, unless
        the pool hands out none any more, or has none. */
    method MempoolGet(mp: Pool, reach: nat) returns (m: Ptr)
      requires Inv(St())
      modifies this`free
      ensures m == NULL <==> reach == 0 || FreeOf(old(St()), mp) == {}
      ensures m == NULL ==> free == old(free)
      ensures m != NULL ==> m in old(free) && m in mem && mem[m].pool == mp && free == old(free) - {m}
    {
      m := NULL;
      if reach > 0 && exists p :: p in free && p in mem && mem[p].pool == mp {
        m :| m in free && m in mem && mem[m].pool == mp;
        assert HeaderOk(mem, m) && m in FreeOf(St(), mp);
        free := free - {m};
      }
    }

    method RawAlloc(mp: Pool, reach: nat) returns (m: Ptr)
      requires Inv(St())
      modifies this`free
      ensures m == NULL <==> reach == 0 || FreeOf(old(St()), mp) == {}
      ensures m == NULL ==> free == old(free)
      ensures m != NULL ==> m in old(free) && m in mem && mem[m].pool == mp && free == old(free) - {m}
    {
      m := MempoolGet(mp, reach);
      if m == NULL {
        return;
      }
      assert CountOk(old(St()), m);
      assert RawFreeable(mem[m]);  // MBUF_RAW_ALLOC_CHECK
    }

    /** rte_pktmbuf_alloc, from a pool that hands out reach more mbufs as long as it has any. */
    method Alloc(mp: Pool, reach: nat) returns (m: Ptr)
      requires Inv(St())
      modifies this
      ensures m == NULL <==> reach == 0 || FreeOf(old(St()), mp) == {}
      ensures m == NULL ==> St() == old(St())
      ensures m != NULL ==> m in old(free) && m in old(mem) && m in mem && old(mem)[m].pool == mem[m].pool == mp
      ensures m != NULL ==> free == old(free) - {m} && refs == old(refs)[m := 1] && mem == old(mem)[m := mem[m]]
      ensures m != NULL ==>
                && Inv(St()) && Packet(St(), m, [m]) && AllData(mem, [m]) && Bytes(mem, [m]) == []
                && mem[m].dataOff == Min(HEADROOM, mem[m].bufLen)
      ensures m != NULL ==> St() == AllocS(old(St()), m)
    {
      m := RawAlloc(mp, reach);
      if m != NULL {
        AllocatedPacket(old(St()), m);
        mem := mem[m := mem[m].(next := NULL, pktLen := 0, nbSegs := 1)];
        mem := mem[m := mem[m].(indirect := false)];
        mem := mem[m := mem[m].(dataOff := Min(HEADROOM, mem[m].bufLen))];
        mem := mem[m := mem[m].(dataLen := 0)];
        refs := refs[m := 1];
      }
    }

    /** Its four requirements are the assertions of rte_mbuf_raw_free. */
    method RawFree(m: Ptr)
      requires m in mem && !mem[m].indirect
      requires mem[m].refcnt == 1
      requires mem[m].next == NULL
      requires mem[m].nbSegs == 1
      modifies this`free
      ensures free == old(free) + {m}
    {
      free := free + {m};
    }

    // ---------- Reference counting ----------

    method RefcntUpdate(m: Ptr, value: int) returns (r: nat)
      requires m in mem && -0x8000 <= value < 0x8000
      modifies this`mem
      ensures mem == RefcntAdd(old(mem), m, value) && r == mem[m].refcnt
    {
      if mem[m].refcnt == 1 {
        mem := mem[m := mem[m].(refcnt := (1 + value) % U16)];
        return (1 + value) % U16;
      }
      mem := mem[m := mem[m].(refcnt := (mem[m].refcnt + value) % U16)];
      return mem[m].refcnt;
    }

    /** The stores that make mi a view of what m shows. */
    method PointInto(mi: Ptr, m: Ptr)
      requires mi in mem && m in mem && mi != m
      modifies this`mem
      ensures mem == old(mem)[mi := Pointed(old(mem)[mi], old(mem)[m])]
    {
      mem := mem[mi := mem[mi].(privSize := mem[m].privSize)];
      mem := mem[mi := mem[mi].(bufAddr := mem[m].bufAddr, bufLen := mem[m].bufLen)];
      mem := mem[mi := mem[mi].(dataOff := mem[m].dataOff, dataLen := mem[m].dataLen)];
      mem := mem[mi := mem[mi].(next := NULL, pktLen := mem[mi].dataLen, nbSegs := 1)];
      mem := mem[mi := mem[mi].(indirect := true)];
    }

    method Attach(mi: Ptr, m: Ptr)
      requires Inv(St()) && Enabled(St(), Event.Attach(mi, m))
      modifies this`mem
      ensures St() == AttachS(old(St()), mi, m)
      ensures Inv(St()) && Packet(St(), mi, [mi]) && mem[mi].indirect && DataOk(old(mem), m) && AllData(mem, [mi])
      ensures Bytes(mem, [mi]) == Data(old(mem), m)
    {
      AttachedShows(St(), mi, m);
      assert HeaderOk(mem, m);
      hide Packet, Bytes, Data, DataOk, AllData;
      hide Inv, HeaderOk, CountOk, Attached, SameBuffer;
      var md;
      if !mem[m].indirect {
        md := m;
      } else {
        md := FromIndirect(mem[m]);
      }
      var _ := RefcntUpdate(md, 1);
      PointInto(mi, m);
    }

    method Detach(m: Ptr)
      requires m in mem && mem[m].indirect
      requires var md := FromIndirect(mem[m]); md != m && md in mem && !mem[md].indirect
      modifies this`mem, this`free
      ensures St() == DetachS(old(St()), m)
      ensures !mem[m].indirect && FromIndirect(mem[m]) == m && mem[m].bufLen == mem[m].pool.dataRoom
      ensures mem[m].dataLen == 0 && mem[m].dataOff == Min(HEADROOM, mem[m].bufLen)
    {
      var md := FromIndirect(mem[m]);
      mem := mem[m := mem[m].(privSize := mem[m].pool.privSize)];
      mem := mem[m := mem[m].(bufAddr := m + SIZEOF_MBUF + mem[m].pool.privSize, bufLen := mem[m].pool.dataRoom)];
      mem := mem[m := mem[m].(dataOff := Min(HEADROOM, mem[m].bufLen), dataLen := 0, indirect := false)];
      var left := RefcntUpdate(md, -1);
      if left == 0 {
        mem := mem[md := mem[md].(next := NULL, nbSegs := 1)];
        mem := mem[md := mem[md].(refcnt := 1)];
        RawFree(md);
      }
    }

    /** The part both branches of rte_pktmbuf_prefree_seg share. */
    method Recycle(m: Ptr)
      requires m in mem && (mem[m].next == NULL ==> mem[m].nbSegs == 1)
      requires mem[m].indirect ==> var md := FromIndirect(mem[m]); md != m && md in mem && !mem[md].indirect
      modifies this`mem, this`free
      ensures var t := if old(mem)[m].indirect then DetachS(old(St()), m) else old(St());
              && mem == t.mem[m := t.mem[m].(next := NULL, nbSegs := 1)]
              && free == t.free
    {
      if mem[m].indirect {
        Detach(m);
      }
      if mem[m].next != NULL {
        mem := mem[m := mem[m].(next := NULL)];
        mem := mem[m := mem[m].(nbSegs := 1)];
      }
    }

    /** The branch of rte_pktmbuf_prefree_seg with the atomic update. */
    method PrefreeAtomic(m: Ptr) returns (r: Ptr)
      requires m in mem && m != NULL && (mem[m].next == NULL ==> mem[m].nbSegs == 1)
      requires mem[m].indirect ==> var md := FromIndirect(mem[m]); md != m && md in mem && !mem[md].indirect
      modifies this`mem, this`free
      ensures r == if old(mem)[m].refcnt % U16 == 1 then m else NULL
      ensures var s := old(St()).(mem := RefcntAdd(old(mem), m, -1));
              var t := if s.mem[m].indirect then DetachS(s, m) else s;
              if r == NULL then
                mem == s.mem && free == s.free
              else
                mem == t.mem[m := t.mem[m].(next := NULL, nbSegs := 1, refcnt := 1)] && free == t.free
      ensures m in mem
    {
      mem := mem[m := mem[m].(refcnt := (mem[m].refcnt - 1) % U16)];
      if mem[m].refcnt == 0 {
        Recycle(m);
        mem := mem[m := mem[m].(refcnt := 1)];
        r := m;
      } else {
        r := NULL;
      }
    }

    /** rte_pktmbuf_prefree_seg after its read of the counter gave seen.  Holders on other cores
        may have let go in between, so the counter can be lower than what was read; when one was
        read, the caller is the only holder and it cannot have changed. */
    method PrefreeSegAfterRead(m: Ptr, seen: nat) returns (r: Ptr)
      requires Inv(St()) && Held(St(), m)
      requires seen == 1 ==> mem[m].refcnt == 1
      modifies this
      ensures FromIndirect(old(mem)[m]) in old(mem)
      ensures r == if old(mem)[m].refcnt == 1 then m else NULL
      ensures var t := FreeSegS(old(St()), m);
              && mem == t.mem && refs == t.refs
              && free == if r == NULL then t.free else t.free - {m}
      ensures r != NULL ==> m in mem && RawFreeable(mem[m])
    {
      PrefreeShape(St(), m);
      if mem[m].refcnt == 1 { DetachAtZero(St(), m); }
      hide Inv, HeaderOk, CountOk, Attached, Holders, SameBuffer, FreeSegS, DetachS;
      if seen == 1 {
        Recycle(m);
        r := m;
      } else {
        r := PrefreeAtomic(m);
      }
      refs := refs[m := refs[m] - 1];
    }

    method PrefreeSeg(m: Ptr) returns (r: Ptr)
      requires Inv(St()) && Held(St(), m)
      modifies this
      ensures FromIndirect(old(mem)[m]) in old(mem)
      ensures r == if old(mem)[m].refcnt == 1 then m else NULL
      ensures var t := FreeSegS(old(St()), m);
              && mem == t.mem && refs == t.refs
              && free == if r == NULL then t.free else t.free - {m}
      ensures r != NULL ==> m in mem && RawFreeable(mem[m])
    {
      r := PrefreeSegAfterRead(m, mem[m].refcnt);
    }

    method FreeSeg(m: Ptr)
      requires Inv(St()) && Held(St(), m)
      modifies this
      ensures FromIndirect(old(mem)[m]) in old(mem)
      ensures St() == FreeSegS(old(St()), m)
    {
      PrefreeShape(St(), m);
      var r := PrefreeSeg(m);
      if r != NULL {
        RawFree(r);
      }
    }

    // ---------- Whole packets ----------

    /** rte_pktmbuf_free: every segment of the chain gives back one reference. */
    method Free(m0: Ptr, ghost segs: seq<Ptr>)
      requires Inv(St())
      requires m0 == NULL ==> segs == []
      requires m0 != NULL ==> Linked(mem, m0, segs) && AllHeld(St(), segs)
      modifies this
      ensures Inv(St()) && FreedAll(old(St()), segs, St())
    {
      hide Inv, FreedAll, FreeSegS, AllHeld, Linked, Held;
      if m0 == NULL {
        FreedNone(St());
        return;
      }
      var m := m0;
      ghost var k := 0;
      FreedNone(St());
      LinkedHead(mem, m0, segs);
      while m != NULL
        invariant k <= |segs| && m == if k < |segs| then segs[k] else NULL
        invariant Inv(St()) && FreedAll(old(St()), segs[..k], St())
        decreases |segs| - k
      {
        FreeReached(old(St()), m0, segs, k, St());
        FreeStep(old(St()), segs[..k], St(), m);
        assert segs[..k] + [m] == segs[..k + 1];
        var mNext := mem[m].next;
        FreeSeg(m);
        m := mNext;
        k := k + 1;
      }
      assert segs[..k] == segs;
    }

    method Share(m: Ptr, v: int)
      requires Enabled(St(), Event.Share(m, v)) && -0x8000 <= v < 0x8000
      modifies this
      ensures St() == ShareS(old(St()), m, v)
    {
      var _ := RefcntUpdate(m, v);
      refs := refs[m := refs[m] + v];
    }

    /** rte_pktmbuf_refcnt_update: every segment gains v references, or loses -v. */
    method ShareAll(m0: Ptr, v: int, ghost segs: seq<Ptr>)
      requires Inv(St()) && Linked(mem, m0, segs) && AllHeld(St(), segs) && -0x8000 <= v < 0x8000
      requires forall i :: 0 <= i < |segs| ==> Enabled(St(), Event.Share(segs[i], v))
      modifies this
      ensures Inv(St()) && SharedAll(old(St()), segs, v, St())
    {
      var m := m0;
      ghost var k := 0;
      while m != NULL
        invariant k <= |segs| && m == if k < |segs| then segs[k] else NULL
        invariant Inv(St()) && SharedAll(old(St()), segs[..k], v, St())
        decreases |segs| - k
      {
        ShareProgress(old(St()), m0, segs, v, k, St());
        Share(m, v);
        m := mem[m].next;
        k := k + 1;
      }
      assert segs[..k] == segs;
    }

    /** One pass of the loop of rte_pktmbuf_clone: attach, then store through prev. */
    method AttachAndLink(mi: Ptr, m: Ptr, prev: Ptr)
      requires Inv(St()) && Enabled(St(), Event.Attach(mi, m)) && prev in mem
      modifies this`mem
      ensures St() == AttachLinkS(old(St()), mi, m, prev)
    {
      Attach(mi, m);
      mem := mem[prev := mem[prev].(next := mi)];
    }

    /** The stores after the loop of rte_pktmbuf_clone. */
    method CloseChain(prev: Ptr, mc: Ptr, nseg: nat, pktLen: nat, ghost dst: seq<Ptr>)
      requires |dst| > 0 && AllIn(mem, dst) && mc == dst[0] && prev == dst[|dst| - 1] && nseg == |dst|
      modifies this`mem
      ensures St() == ClosedS(old(St()), dst, pktLen)
    {
      mem := mem[prev := mem[prev].(next := NULL)];
      mem := mem[mc := mem[mc].(nbSegs := nseg)];
      mem := mem[mc := mem[mc].(pktLen := pktLen)];
    }

    /** The end of rte_pktmbuf_clone when a pool had no mbuf: the part cloned is freed again. */
    method DropClone(mc: Ptr, ghost s: State, ghost part: seq<Ptr>, ghost dst: seq<Ptr>)
      requires Inv(s) && Inv(St()) && AllIn(s.mem, part) && Cloned(s, part, dst, St())
      requires Linked(mem, mc, dst) && AllHeld(St(), dst)
      modifies this
      ensures Inv(St()) && free == s.free && refs == s.refs && mem.Keys == s.mem.Keys
      ensures forall p :: p in s.mem ==> mem[p].refcnt == s.mem[p].refcnt
      ensures forall p :: p in s.mem && p !in s.free ==> mem[p] == s.mem[p]
    {
      hide Inv, Cloned, AllHeld, FreedAll;
      LinkedHead(mem, mc, dst);
      ghost var t := St();
      Free(mc, dst);
      CloneThenFree(s, part, dst, t, St());
    }

    /** rte_pktmbuf_clone, from a pool that hands out reach more mbufs as long as it has any.  When
        that is enough for all segments it returns a packet of fresh indirect segments with the
        bytes, the segment count and the length of the original; otherwise it returns NULL and every
        pool, every counter and every live header is what it was. */
    method Clone(md0: Ptr, mp: Pool, reach: nat, ghost src: seq<Ptr>) returns (mc: Ptr, ghost dst: seq<Ptr>)
      requires Inv(St()) && Packet(St(), md0, src) && CountersFit(St(), src)
      modifies this
      ensures Inv(St())
      ensures mc != NULL <==> |src| <= reach && |src| <= |FreeOf(old(St()), mp)|
      ensures mc == NULL ==>
                && free == old(free) && refs == old(refs) && mem.Keys == old(mem).Keys
                && (forall p :: p in old(mem) ==> mem[p].refcnt == old(mem)[p].refcnt)
                && (forall p :: p in old(mem) && p !in free ==> mem[p] == old(mem)[p])
      ensures mc != NULL ==>
                && Cloned(old(St()), src, dst, St()) && FromPool(old(St()), dst, mp)
                && Packet(St(), mc, dst) && Packet(St(), md0, src)
                && AllData(old(mem), src) && AllData(mem, dst) && AllData(mem, src)
                && Bytes(mem, dst) == Bytes(old(mem), src) == Bytes(mem, src)
    {
      hide Inv, CountersFit, CloneDone, AttachLinkS, ClosedS, AllHeld, Cloned, Bytes, Data, Linked, FreedAll, Packet;
      hide AllData, Attached, HeaderOk, CountOk, Growing, FreeOf, FromPool, AllocS, AttachS, Enabled, Held;
      ghost var s := St();
      PacketHead(s, md0, src);
      dst := [];
      FromPoolNone(s, mp);
      mc := Alloc(mp, reach);
      if mc == NULL {
        return;
      }
      var mi, prev, md := mc, mc, md0;
      var pktLen := mem[md0].pktLen;
      var nseg := 1;
      var k := 1;
      ClonePass(s, src, 0, [], s, mi);
      FromPoolFirst(s, mp, mi);
      AllocKeepsInv(s, mi);
      AttachAndLink(mi, md, prev);
      dst := [mi];
      assert [] + [mi] == [mi];
      while true
        invariant 1 <= k <= |src| && nseg == k && md == src[k - 1]
        invariant |dst| == k && dst[0] == mc && prev == mi == dst[k - 1] && mi != NULL
        invariant CloneDone(s, src, k, dst, St()) && FromPool(s, dst, mp) && k <= reach
        decreases |src| - k
      {
        SourceNext(s, md0, src, k, dst, St());
        md := mem[md].next;
        if md == NULL {
          break;
        }
        ghost var t := St();
        mi := Alloc(mp, reach - k);
        if mi == NULL {
          break;
        }
        FromPoolNext(s, src, k, dst, t, mp, mi);
        ClonePass(s, src, k, dst, t, mi);
        AllocKeepsInv(t, mi);
        nseg := (nseg + 1) % U16;
        AttachAndLink(mi, md, prev);
        prev := mi;
        dst := dst + [mi];
        k := k + 1;
      }
      FreeLeft(s, src, k, dst, St(), mp);
      CloneClosed(s, src, k, dst, St(), pktLen);
      CloseChain(prev, mc, nseg, pktLen, dst);
      if mi == NULL {
        DropClone(mc, s, src[..k], dst);
        mc := NULL;
      } else {
        assert src[..k] == src;
        CloneIsPacket(s, md0, src, dst, St());
      }
    }

    // ---------- Layout ----------

    /** rte_pktmbuf_lastseg. */
    method LastSeg(m0: Ptr, ghost segs: seq<Ptr>) returns (m: Ptr)
      requires Linked(mem, m0, segs)
      ensures m == segs[|segs| - 1]
    {
      m := m0;
      ghost var k := 0;
      while mem[m].next != NULL
        invariant k < |segs| && m == segs[k] && m in mem
        invariant mem[m].next == if k + 1 < |segs| then segs[k + 1] else NULL
        invariant k + 1 < |segs| ==> segs[k + 1] != NULL
        decreases |segs| - k
      {
        m := mem[m].next;
        k := k + 1;
      }
    }

    /** rte_pktmbuf_prepend. */
    method Prepend(m: Ptr, len: nat, ghost segs: seq<Ptr>) returns (r: Ptr)
      requires Inv(St()) && Packet(St(), m, segs) && len < U16
      modifies this`mem
      ensures len > old(mem)[m].dataOff ==> r == NULL && mem == old(mem)
      ensures len <= old(mem)[m].dataOff ==>
                mem == PrependS(old(mem), m, len) && r == mem[m].bufAddr + mem[m].dataOff
      ensures Inv(St()) && Packet(St(), m, segs) && AllData(old(mem), segs) && AllData(mem, segs)
      ensures var added := if len > old(mem)[m].dataOff then 0 else len;
              added <= |Bytes(mem, segs)| && Bytes(mem, segs)[added..] == Bytes(old(mem), segs)
    {
      hide Inv, Packet, Bytes, AllData;
      PacketHead(St(), m, segs);
      if len > mem[m].dataOff {
        return NULL;
      }
      PrependedPacket(St(), m, segs, len);
      mem := mem[m := mem[m].(dataOff := mem[m].dataOff - len)];
      mem := mem[m := mem[m].(dataLen := (mem[m].dataLen + len) % U16)];
      mem := mem[m := mem[m].(pktLen := (mem[m].pktLen + len) % U32)];
      r := mem[m].bufAddr + mem[m].dataOff;
    }

    /** rte_pktmbuf_adj. */
    method Adj(m: Ptr, len: nat, ghost segs: seq<Ptr>) returns (r: Ptr)
      requires Inv(St()) && Packet(St(), m, segs) && len < U16
      modifies this`mem
      ensures len > old(mem)[m].dataLen ==> r == NULL && mem == old(mem)
      ensures len <= old(mem)[m].dataLen ==>
                len <= old(mem)[m].pktLen && mem == AdjS(old(mem), m, len) && r == mem[m].bufAddr + mem[m].dataOff
      ensures Inv(St()) && Packet(St(), m, segs) && AllData(old(mem), segs) && AllData(mem, segs)
      ensures var cut := if len > old(mem)[m].dataLen then 0 else len;
              cut <= |Bytes(old(mem), segs)| && Bytes(mem, segs) == Bytes(old(mem), segs)[cut..]
    {
      hide Inv, Packet, Bytes, AllData;
      PacketHead(St(), m, segs);
      if len > mem[m].dataLen {
        return NULL;
      }
      AdjustedPacket(St(), m, segs, len);
      mem := mem[m := mem[m].(dataLen := mem[m].dataLen - len)];
      mem := mem[m := mem[m].(dataOff := (mem[m].dataOff + len) % U16)];
      mem := mem[m := mem[m].(pktLen := mem[m].pktLen - len)];
      r := mem[m].bufAddr + mem[m].dataOff;
    }

    /** rte_pktmbuf_append. */
    method Append(m: Ptr, len: nat, ghost segs: seq<Ptr>) returns (r: Ptr)
      requires Inv(St()) && Packet(St(), m, segs) && len < U16
      modifies this`mem
      ensures var last := segs[|segs| - 1];
              && last in old(mem)
              && var x := old(mem)[last];
                 if x.dataOff + x.dataLen + len <= x.bufLen then
                   mem == AppendS(old(mem), m, last, len) && r == x.bufAddr + x.dataOff + x.dataLen
                 else
                   mem == old(mem) && r == NULL
      ensures Inv(St()) && Packet(St(), m, segs) && AllData(old(mem), segs) && AllData(mem, segs)
      ensures Bytes(old(mem), segs) <= Bytes(mem, segs)
      ensures var x := old(mem)[segs[|segs| - 1]];
              |Bytes(mem, segs)| == |Bytes(old(mem), segs)| + if x.dataOff + x.dataLen + len <= x.bufLen then len else 0
    {
      hide Inv, Packet, Bytes, AllData, Linked;
      PacketHead(St(), m, segs);
      PacketDistinct(St(), m, segs);
      var last := LastSeg(m, segs);
      BufLenBound(St(), last);
      if len > (mem[last].bufLen - mem[last].dataOff - mem[last].dataLen) % U16 {
        return NULL;
      }
      AppendedPacket(St(), m, segs, len);
      r := mem[last].bufAddr + mem[last].dataOff + mem[last].dataLen;
      mem := mem[last := mem[last].(dataLen := (mem[last].dataLen + len) % U16)];
      mem := mem[m := mem[m].(pktLen := (mem[m].pktLen + len) % U32)];
    }

    /** rte_pktmbuf_trim. */
    method Trim(m: Ptr, len: nat, ghost segs: seq<Ptr>) returns (r: int)
      requires Inv(St()) && Packet(St(), m, segs) && len < U16
      modifies this`mem
      ensures var last := segs[|segs| - 1];
              && last in old(mem)
              && if len <= old(mem)[last].dataLen then
                   r == 0 && len <= old(mem)[m].pktLen && mem == TrimS(old(mem), m, last, len)
                 else
                   r == -1 && mem == old(mem)
      ensures Inv(St()) && Packet(St(), m, segs) && AllData(old(mem), segs) && AllData(mem, segs)
      ensures Bytes(mem, segs) <= Bytes(old(mem), segs)
      ensures |Bytes(old(mem), segs)| == |Bytes(mem, segs)| + if r == 0 then len else 0
    {
      hide Inv, Packet, Bytes, AllData, Linked;
      PacketHead(St(), m, segs);
      PacketDistinct(St(), m, segs);
      var last := LastSeg(m, segs);
      if len > mem[last].dataLen {
        return -1;
      }
      TrimmedPacket(St(), m, segs, len);
      mem := mem[last := mem[last].(dataLen := mem[last].dataLen - len)];
      mem := mem[m := mem[m].(pktLen := mem[m].pktLen - len)];
      r := 0;
    }

    /** rte_pktmbuf_chain; -EOVERFLOW is modelled as -75. */
    method Chain(head: Ptr, tail: Ptr, ghost hs: seq<Ptr>, ghost ts: seq<Ptr>) returns (r: int)
      requires Inv(St()) && Packet(St(), head, hs) && Packet(St(), tail, ts)
      requires forall p :: p in hs ==> p !in ts
      modifies this`mem
      ensures |hs| + |ts| > MAX_NB_SEGS ==> r == -75 && mem == old(mem)
      ensures |hs| + |ts| <= MAX_NB_SEGS ==>
                r == 0 && hs[|hs| - 1] in old(mem) && mem == ChainS(old(mem), head, hs[|hs| - 1], tail)
      ensures r == 0 ==>
                && Inv(St()) && Packet(St(), head, hs + ts)
                && tail in mem && mem[tail].pktLen == mem[tail].dataLen
                && AllData(old(mem), hs) && AllData(old(mem), ts) && AllData(mem, hs + ts)
                && Bytes(mem, hs + ts) == Bytes(old(mem), hs) + Bytes(old(mem), ts)
    {
      hide Inv, AllHeld, SumLen, Bytes, AllData;
      PacketHead(St(), head, hs);
      PacketHead(St(), tail, ts);
      if mem[head].nbSegs + mem[tail].nbSegs > MAX_NB_SEGS {
        return -75;
      }
      ChainedTotal(St(), head, hs, tail, ts);
      ChainedPacket(St(), head, hs, tail, ts);
      var cur := LastSeg(head, hs);
      assert head in hs && tail in ts && cur in hs;
      mem := mem[cur := mem[cur].(next := tail)];
      mem := mem[head := mem[head].(nbSegs := (mem[head].nbSegs + mem[tail].nbSegs) % U16)];
      mem := mem[head := mem[head].(pktLen := (mem[head].pktLen + mem[tail].pktLen) % U32)];
      mem := mem[tail := mem[tail].(pktLen := mem[tail].dataLen)];
      r := 0;
    }

    /** rte_memcpy of len bytes from an offset of one buffer to an offset of another, or of the
        same one: source and destination do not overlap, or are the same. */
    method CopyInto(d: Ptr, at: nat, src: Ptr, from: nat, len: nat)
      requires d in mem && at + len <= |mem[d].room| && src in mem && from + len <= |mem[src].room|
      requires src == d && len > 0 ==> from + len <= at || at + len <= from || from == at
      modifies this`mem
      ensures St() == WriteRoom(old(St()), d, Filled(old(mem)[d].room, at, old(mem)[src].room[from..from + len]))
    {
      var bytes, room := mem[src].room[from..from + len], mem[d].room;
      mem := mem[d := mem[d].(room := room[..at] + bytes + room[at + |bytes|..])];
    }

    /** The loop body of rte_pktmbuf_linearize, for the segment at position k behind the head. */
    method MoveSegment(m: Ptr, d: Ptr, buffer: nat, ghost s: State, ghost head: Ptr, ghost segs: seq<Ptr>,
                       ghost k: nat, ghost f: State) returns (mNext: Ptr, end: nat)
      requires Inv(s) && Packet(s, head, segs) && Gatherable(s.mem, segs) && Apart(s.mem, segs)
      requires s.mem[head].dataOff + s.mem[head].pktLen <= s.mem[head].bufLen
      requires k + 1 < |segs| && m == segs[1..][k] && AllIn(Stretched(s, head).mem, segs[1..])
      requires d == FromIndirect(s.mem[head])
      requires var at := s.mem[head].dataOff + s.mem[head].dataLen;
               && buffer == at + LenTo(Stretched(s, head).mem, segs[1..], k)
               && Gathered(Stretched(s, head), d, at, segs[1..], k, f, St())
      modifies this
      ensures Held(f, m) && FromIndirect(f.mem[m]) in f.mem
      ensures mNext == if k + 1 < |segs[1..]| then segs[1..][k + 1] else NULL
      ensures var at := s.mem[head].dataOff + s.mem[head].dataLen;
              && end == at + LenTo(Stretched(s, head).mem, segs[1..], k + 1)
              && Gathered(Stretched(s, head), d, at, segs[1..], k + 1, FreeSegS(f, m), St())
    {
      hide Inv, Packet, AllHeld, SumLen, Linked, FreedAll, Gathered, Filled, FreeSegS, AllData, Apart;
      hide CopiedRoom, Shown;
      PacketHead(s, head, segs);
      ghost var s1, rest, at := Stretched(s, head), segs[1..], s.mem[head].dataOff + s.mem[head].dataLen;
      StretchStart(s, head, segs);
      assert rest[0] == segs[1];
      GatherReady(s1, d, at, rest, k, f, St());
      CopyReady(s, head, segs, k, f, St());
      mNext := mem[m].next;
      var segLen := mem[m].dataLen;
      ghost var t := St();
      CopyInto(d, buffer, FromIndirect(mem[m]), mem[m].dataOff, segLen);
      end := buffer + segLen;
      GatherStep(s1, d, at, rest, k, f, t, St());
      FreeSeg(m);
    }

    /** rte_pktmbuf_linearize.  Either the packet stays as it is, or it becomes one segment with
        the bytes the copies leave, which are its own when no segment is overwritten before its
        turn, and every later segment is released once. */
    method Linearize(head: Ptr, ghost segs: seq<Ptr>) returns (r: int)
      requires Inv(St()) && Packet(St(), head, segs)
      requires mem[head].dataOff + mem[head].pktLen <= mem[head].bufLen ==> Apart(mem, segs)
      requires mem[head].dataLen <= mem[head].pktLen && mem[head].pktLen - mem[head].dataLen < 0x8000_0000
      modifies this
      ensures Inv(St()) && AllData(old(mem), segs)
      ensures var x := old(mem)[head];
              var fits := x.dataOff + x.pktLen <= x.bufLen;
              && r == (if |segs| == 1 || fits then 0 else -1)
              && (|segs| == 1 || !fits ==> St() == old(St()))
              && (|segs| > 1 && fits ==>
                    && Packet(St(), head, [head]) && AllData(mem, [head])
                    && Gatherable(old(mem), segs) && Bytes(mem, [head]) == GatheredBytes(old(mem), segs)
                    && (Spared(old(mem), segs) ==> Bytes(mem, [head]) == Bytes(old(mem), segs))
                    && FromIndirect(x) in old(mem)
                    && FreedAll(Gathering(Stretched(old(St()), head), head, FromIndirect(x),
                                          GatheredRoom(old(mem), segs)),
                                segs[1..], St()))
    {
      hide Inv, AllHeld, SumLen, Linked, Bytes, FreedAll, Gathering, Gathered, Filled, FreeSegS, AllData, Packet;
      hide HeaderOk, Apart, Spared, KeepsBytes, GatheredBytes, GatheredRoom, CopiedRoom, Shown;
      ghost var s := St();
      PacketHead(s, head, segs);
      PacketCount(s, head, segs);
      BufLenBound(s, head);
      InvData(s, head);
      if mem[head].nbSegs == 1 {
        return 0;
      }
      var copyLen := ToInt32(mem[head].pktLen - mem[head].dataLen);
      if copyLen > (mem[head].bufLen - mem[head].dataOff - mem[head].dataLen) % U16 {
        return -1;
      }
      var d := FromIndirect(mem[head]);
      var buffer := mem[head].dataOff + mem[head].dataLen;
      StretchStart(s, head, segs);
      PacketGatherable(s, head, segs);
      NextOfHead(s, head, segs);
      mem := mem[head := mem[head].(dataLen := mem[head].pktLen % U16)];
      ghost var s1, rest, at, k := St(), segs[1..], buffer, 0;
      assert s1 == Stretched(s, head);
      ghost var f := s1;
      GatherStart(s, head, segs);
      LinkedHead(s1.mem, segs[1], rest);
      var m := mem[head].next;
      while m != NULL
        invariant k <= |rest| && m == if k < |rest| then rest[k] else NULL
        invariant AllIn(s1.mem, rest) && buffer == at + LenTo(s1.mem, rest, k)
        invariant Gathered(s1, d, at, rest, k, f, St())
        decreases |rest| - k
      {
        var mNext;
        mNext, buffer := MoveSegment(m, d, buffer, s, head, segs, k, f);
        f := FreeSegS(f, m);
        k := k + 1;
        m := mNext;
      }
      LinearizeDone(s, head, segs, f, St());
      if Spared(s.mem, segs) { SparedBytes(s.mem, segs); }
      ghost var last := mem;
      mem := mem[head := mem[head].(next := NULL)];
      mem := mem[head := mem[head].(nbSegs := 1)];
      assert mem == last[head := last[head].(next := NULL, nbSegs := 1)];
      r := 0;
    }
  }

  ghost predicate SharedAll(s: State, segs: seq<Ptr>, v: int, t: State) {
    && t.free == s.free && t.mem.Keys == s.mem.Keys && t.refs.Keys == s.refs.Keys
    && (forall p :: p in s.mem ==>
          t.mem[p].refcnt == s.mem[p].refcnt + (if p in segs then v else 0)
          && t.mem[p] == s.mem[p].(refcnt := t.mem[p].refcnt))
    && (forall p :: p in s.refs ==> t.refs[p] == s.refs[p] + (if p in segs then v else 0))
  }

  lemma ShareProgress(s: State, head: Ptr, segs: seq<Ptr>, v: int, k: nat, t: State)
    requires Inv(t) && Linked(s.mem, head, segs) && AllHeld(s, segs) && k < |segs|
    requires Enabled(s, Event.Share(segs[k], v))
    requires SharedAll(s, segs[..k], v, t)
    ensures var m := segs[k];
            && Enabled(t, Event.Share(m, v))
            && Inv(ShareS(t, m, v)) && SharedAll(s, segs[..k + 1], v, ShareS(t, m, v))
            && t.mem[m].next == if k + 1 < |segs| then segs[k + 1] else NULL
  {
    hide Inv;
    var m := segs[k];
    assert Held(s, m) && m !in segs[..k];
    assert t.mem[m] == s.mem[m] && t.refs[m] == s.refs[m];
    ShareKeepsInv(t, m, v);
    assert segs[..k + 1] == segs[..k] + [m];
    SharedOneMore(s, segs[..k], m, v, t);
  }

  lemma SharedOneMore(s: State, done: seq<Ptr>, m: Ptr, v: int, t: State)
    requires SharedAll(s, done, v, t) && m !in done && Enabled(s, Event.Share(m, v))
    ensures m in t.mem && m in t.refs && t.refs[m] + v >= 0 && SharedAll(s, done + [m], v, ShareS(t, m, v))
  {
  }

  lemma NextOfHead(s: State, head: Ptr, segs: seq<Ptr>)
    requires Packet(s, head, segs) && |segs| > 1
    ensures s.mem[head].next == segs[1] != NULL
  {
  }

  lemma GatherStart(s: State, head: Ptr, segs: seq<Ptr>)
    requires Inv(s) && Packet(s, head, segs) && |segs| > 1 && Gatherable(s.mem, segs)
    requires s.mem[head].dataOff + s.mem[head].pktLen <= s.mem[head].bufLen
    ensures var s1, rest := Stretched(s, head), segs[1..];
            && AllIn(s1.mem, rest) && LenTo(s1.mem, rest, 0) == 0
            && Gathered(s1, FromIndirect(s.mem[head]), s.mem[head].dataOff + s.mem[head].dataLen, rest, 0, s1, s1)
  {
    hide Inv, Packet, SumLen, CopiedRoom, FreedAll;
    PacketDistinct(s, head, segs);
    FirstOk(s.mem, segs);
    var s1, rest := Stretched(s, head), segs[1..];
    var d, at := FromIndirect(s.mem[head]), s.mem[head].dataOff + s.mem[head].dataLen;
    StretchStart(s, head, segs);
    StretchedCopies(s, head, segs, 0);
    FreedNone(s1);
    LenToNone(s1.mem, rest);
    CopiedNone(s1.mem, d, at, rest);
    assert rest[..0] == [];
    assert s1.mem[d := s1.mem[d].(room := s1.mem[d].room)] == s1.mem;
  }

  /** The next copy fits, and does not overlap what it reads, unless it is in place. */
  lemma CopyReady(s: State, head: Ptr, segs: seq<Ptr>, k: nat, f: State, t: State)
    requires Inv(s) && Packet(s, head, segs) && Gatherable(s.mem, segs) && Apart(s.mem, segs)
    requires forall p :: p in segs[1..] ==> p in s.mem && p != head
    requires k + 1 < |segs| && AllIn(Stretched(s, head).mem, segs[1..])
    requires var m, at := segs[1..][k], s.mem[head].dataOff + s.mem[head].dataLen;
             && Gathered(Stretched(s, head), FromIndirect(s.mem[head]), at, segs[1..], k, f, t)
             && DataOk(t.mem, m) && SameView(t.mem[m], Stretched(s, head).mem[m])
             && FromIndirect(s.mem[head]) in t.mem
    ensures var m, d := segs[1..][k], FromIndirect(s.mem[head]);
            var n := LenTo(Stretched(s, head).mem, segs[1..], k);
            var x, to := t.mem[m], s.mem[head].dataOff + s.mem[head].dataLen + n;
            && to + x.dataLen <= |t.mem[d].room|
            && (FromIndirect(x) == d && x.dataLen > 0 ==>
                  x.dataOff + x.dataLen <= to || to + x.dataLen <= x.dataOff || x.dataOff == to)
            && LenTo(Stretched(s, head).mem, segs[1..], k + 1) == n + x.dataLen
  {
    hide Inv, SumLen, CopiedRoom, FreedAll, LenTo;
    var s1, rest := Stretched(s, head), segs[1..];
    PacketDistinct(s, head, segs);
    hide Packet;
    assert rest[k] in rest;
    StretchedCopies(s, head, segs, k);
    LenToStep(s1.mem, rest, k);
    assert s1.mem[rest[k]] == s.mem[rest[k]];
    var to := s.mem[head].dataOff + s.mem[head].dataLen + LenTo(s.mem, rest, k);
    assert InPlace(s.mem, rest[k], FromIndirect(s.mem[head]), to)
        || Outside(s.mem, rest[k], FromIndirect(s.mem[head]), to, to + s.mem[rest[k]].dataLen);
    FreedRooms(s1, rest[..k], f);
  }

  lemma SparedBytes(mem: Memory, segs: seq<Ptr>)
    requires Gatherable(mem, segs) && Spared(mem, segs)
    ensures AllData(mem, segs) && GatheredBytes(mem, segs) == Bytes(mem, segs)
  {
    hide GatheredBytes, Bytes, Spared;
    SpareKeeps(mem, segs);
  }

  /** The original keeps its links while its first k segments are cloned. */
  lemma SourceNext(s: State, head: Ptr, src: seq<Ptr>, k: nat, dst: seq<Ptr>, t: State)
    requires Inv(s) && Packet(s, head, src) && 0 < k <= |src|
    requires AllIn(s.mem, src) && CloneDone(s, src, k, dst, t)
    ensures src[k - 1] in t.mem && t.mem[src[k - 1]].next == if k < |src| then src[k] else NULL
    ensures Inv(t) && (k < |src| ==> src[k] != NULL)
  {
    assert forall i :: 0 <= i < k ==> Held(s, src[i]);
    SourceKept(s, src[..k], dst, t);
    assert src[..k][k - 1] == src[k - 1];
  }

  lemma LinkedHead(mem: Memory, head: Ptr, segs: seq<Ptr>)
    requires Linked(mem, head, segs)
    ensures |segs| > 0 && segs[0] == head && AllIn(mem, segs) && segs[..0] == []
    ensures forall i :: 0 <= i < |segs| ==> segs[i] != NULL
  {
  }

  /** Detaching does not look at the counter of the mbuf being detached. */
  lemma PrefreeShape(s: State, m: Ptr)
    requires Inv(s) && Held(s, m)
    ensures m != NULL && m !in s.free && 1 <= s.mem[m].refcnt < U16
    ensures s.mem[m].next == NULL ==> s.mem[m].nbSegs == 1
    ensures FreeSegS(s, m).refs == s.refs[m := s.refs[m] - 1]
    ensures FromIndirect(s.mem[m]) in s.mem
    ensures s.mem[m].indirect ==> FromIndirect(s.mem[m]) != m && !s.mem[FromIndirect(s.mem[m])].indirect
    ensures s.mem[m].refcnt > 1 ==>
              FreeSegS(s, m).mem == s.mem[m := s.mem[m].(refcnt := s.mem[m].refcnt - 1)]
              && FreeSegS(s, m).free == s.free
    ensures s.mem[m].refcnt == 1 ==>
              var u := if s.mem[m].indirect then DetachS(s, m) else s;
              && FreeSegS(s, m).free - {m} == u.free
              && FreeSegS(s, m).mem == u.mem[m := u.mem[m].(next := NULL, nbSegs := 1)]
  {
    assert HeaderOk(s.mem, m) && CountOk(s, m);
    if s.mem[m].indirect { DetachShape(s, m); }
  }

  lemma DetachAtZero(s: State, m: Ptr)
    requires Inv(s) && Held(s, m) && s.mem[m].refcnt == 1
    ensures FromIndirect(s.mem[m]) in s.mem
    ensures var s0 := s.(mem := s.mem[m := s.mem[m].(refcnt := 0)]);
            var u := if s.mem[m].indirect then DetachS(s, m) else s;
            var v := if s.mem[m].indirect then DetachS(s0, m) else s0;
            && v.free == u.free && v.mem == u.mem[m := u.mem[m].(refcnt := 0)]
            && u.mem[m].refcnt == 1
  {
    assert HeaderOk(s.mem, m);
    if s.mem[m].indirect { DetachShape(s, m); }
  }
}
