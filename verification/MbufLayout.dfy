/** Changing the layout of a packet: prepend, append, adj, trim and chain, as
    functions on memory, with what each keeps and which undo each other. */
module MbufLayout {
  import opened Bits
  import opened MbufHeap
  import opened MbufPacket

  // ---------- Growing and shrinking at the ends ----------

  function PrependS(mem: Memory, m: Ptr, len: nat): Memory
    requires m in mem && len <= mem[m].dataOff
  {
    mem[m := mem[m].(dataOff := mem[m].dataOff - len, dataLen := mem[m].dataLen + len, pktLen := mem[m].pktLen + len)]
  }

  function AdjS(mem: Memory, m: Ptr, len: nat): Memory
    requires m in mem && len <= mem[m].dataLen && len <= mem[m].pktLen
  {
    mem[m := mem[m].(dataOff := mem[m].dataOff + len, dataLen := mem[m].dataLen - len, pktLen := mem[m].pktLen - len)]
  }

  function AppendS(mem: Memory, m: Ptr, last: Ptr, len: nat): Memory
    requires m in mem && last in mem
  {
    var mem' := mem[last := mem[last].(dataLen := mem[last].dataLen + len)];
    mem'[m := mem'[m].(pktLen := mem'[m].pktLen + len)]
  }

  function TrimS(mem: Memory, m: Ptr, last: Ptr, len: nat): Memory
    requires m in mem && last in mem && len <= mem[last].dataLen && len <= mem[m].pktLen
  {
    var mem' := mem[last := mem[last].(dataLen := mem[last].dataLen - len)];
    mem'[m := mem'[m].(pktLen := mem'[m].pktLen - len)]
  }

  lemma AdjUndoesPrepend(mem: Memory, m: Ptr, len: nat)
    requires m in mem && len <= mem[m].dataOff
    ensures AdjS(PrependS(mem, m, len), m, len) == mem
  {
  }

  lemma TrimUndoesAppend(mem: Memory, m: Ptr, last: Ptr, len: nat)
    requires m in mem && last in mem
    ensures var mem' := AppendS(mem, m, last, len);
            len <= mem'[last].dataLen && len <= mem'[m].pktLen && TrimS(mem', m, last, len) == mem
  {
    var mem' := AppendS(mem, m, last, len);
    assert TrimS(mem', m, last, len)[m] == mem[m] && TrimS(mem', m, last, len)[last] == mem[last];
  }

  /** mem' differs from mem only in what the headers of the segments at 0 and j say about lengths. */
  ghost predicate Resized(mem: Memory, segs: seq<Ptr>, j: nat, mem': Memory)
    requires j < |segs| && AllIn(mem, segs)
  {
    && mem'.Keys == mem.Keys
    && (forall p :: p in mem && p != segs[0] && p != segs[j] ==> mem'[p] == mem[p])
    && mem'[segs[0]] == mem[segs[0]].(dataOff := mem'[segs[0]].dataOff, dataLen := mem'[segs[0]].dataLen,
                                      pktLen := mem'[segs[0]].pktLen)
    && mem'[segs[j]] == mem[segs[j]].(dataOff := mem'[segs[j]].dataOff, dataLen := mem'[segs[j]].dataLen,
                                      pktLen := mem'[segs[j]].pktLen)
    && (j != 0 ==> mem'[segs[0]].dataLen == mem[segs[0]].dataLen && mem'[segs[0]].dataOff == mem[segs[0]].dataOff)
  }

  lemma {:induction false} SumLenSame(mem: Memory, mem': Memory, segs: seq<Ptr>)
    requires AllIn(mem, segs) && AllIn(mem', segs)
    requires forall i :: 0 <= i < |segs| ==> mem[segs[i]].dataLen == mem'[segs[i]].dataLen
    ensures SumLen(mem, segs) == SumLen(mem', segs)
  {
    if segs != [] { SumLenSame(mem, mem', segs[1..]); }
  }

  lemma {:induction false} SumLenSplit(mem: Memory, segs: seq<Ptr>, j: nat)
    requires j < |segs| && AllIn(mem, segs)
    ensures SumLen(mem, segs) == SumLen(mem, segs[..j]) + mem[segs[j]].dataLen + SumLen(mem, segs[j + 1..])
  {
    if j > 0 {
      SumLenSplit(mem, segs[1..], j - 1);
      assert segs[1..][..j - 1] == segs[..j][1..];
      assert segs[1..][j..] == segs[j + 1..];
    }
  }

  /** Lengths of the segments other than the resized one stay, so the total moves with it. */
  lemma ResizedSum(mem: Memory, segs: seq<Ptr>, j: nat, mem': Memory)
    requires j < |segs| && AllIn(mem, segs) && Distinct(segs) && Resized(mem, segs, j, mem')
    ensures SumLen(mem', segs) == SumLen(mem, segs) - mem[segs[j]].dataLen + mem'[segs[j]].dataLen
  {
    SumLenSplit(mem, segs, j);
    SumLenSplit(mem', segs, j);
    forall i | 0 <= i < |segs| && i != j ensures mem'[segs[i]].dataLen == mem[segs[i]].dataLen {
      if i != 0 && j != 0 { assert segs[i] != segs[0] && segs[i] != segs[j]; }
    }
    SumLenSame(mem, mem', segs[..j]);
    SumLenSame(mem, mem', segs[j + 1..]);
  }

  lemma ResizedLinked(mem: Memory, segs: seq<Ptr>, j: nat, mem': Memory)
    requires j < |segs| && Linked(mem, segs[0], segs) && Resized(mem, segs, j, mem')
    ensures Linked(mem', segs[0], segs)
  {
    forall i | 0 <= i < |segs| ensures mem'[segs[i]].next == mem[segs[i]].next {}
  }

  lemma ResizedTotal(s: State, head: Ptr, segs: seq<Ptr>, j: nat, mem': Memory)
    requires Inv(s) && Packet(s, head, segs) && j < |segs| && Resized(s.mem, segs, j, mem')
    requires mem'[segs[j]].dataOff + mem'[segs[j]].dataLen <= s.mem[segs[j]].bufLen
    ensures SumLen(mem', segs) == s.mem[head].pktLen - s.mem[segs[j]].dataLen + mem'[segs[j]].dataLen < U32
  {
    hide CountOk, Inv, HeaderOk;
    ResizedSum(s.mem, segs, j, mem');
    forall i | 0 <= i < |segs| ensures mem'[segs[i]].dataLen < U16 {
      BufLenBound(s, segs[i]);
      if i != j && i != 0 { assert segs[i] != segs[0] && segs[i] != segs[j]; }
    }
    BufLenBound(s, head);
    assert |segs| <= MAX_NB_SEGS;
    SumLenBound(mem', segs);
  }

  /** A resize that moves the head's total by as much as the segment's own length, and keeps each
      segment inside its buffer, leaves a well-formed packet. */
  lemma ResizedPacket(s: State, head: Ptr, segs: seq<Ptr>, j: nat, mem': Memory)
    requires Inv(s) && Packet(s, head, segs) && j < |segs| && Resized(s.mem, segs, j, mem')
    requires mem'[segs[j]].dataOff + mem'[segs[j]].dataLen <= s.mem[segs[j]].bufLen
    requires j != 0 ==> mem'[segs[j]].pktLen == s.mem[segs[j]].pktLen
    requires mem'[head].pktLen == s.mem[head].pktLen - s.mem[segs[j]].dataLen + mem'[segs[j]].dataLen
    ensures Inv(s.(mem := mem')) && Packet(s.(mem := mem'), head, segs)
    ensures forall d :: Attached(mem', d) == Attached(s.mem, d)
  {
    hide Holders, CountOk, Attached;
    ResizedTotal(s, head, segs, j, mem');
    ResizedLinked(s.mem, segs, j, mem');
    SegmentsLive(s, segs);
    assert HeaderOk(s.mem, head) && HeaderOk(s.mem, segs[j]);
    var x := mem'[segs[j]];
    var u := s.(mem := s.mem[segs[j] := x]);
    ResizedMap(s.mem, segs, j, mem');
    EditKeepsInv(s, segs[j], x);
    if j != 0 {
      assert segs[0] != segs[j];
      assert HeaderOk(u.mem, head);
      EditKeepsInv(u, head, mem'[head]);
    } else {
      assert mem' == u.mem;
    }
  }

  lemma ResizedMap(mem: Memory, segs: seq<Ptr>, j: nat, mem': Memory)
    requires j < |segs| && AllIn(mem, segs) && Resized(mem, segs, j, mem')
    ensures mem' == mem[segs[j] := mem'[segs[j]]][segs[0] := mem'[segs[0]]]
    ensures j == 0 ==> mem' == mem[segs[0] := mem'[segs[0]]]
  {
    var u := mem[segs[j] := mem'[segs[j]]][segs[0] := mem'[segs[0]]];
    forall p | p in mem ensures u[p] == mem'[p] {}
    if j == 0 { assert u == mem[segs[0] := mem'[segs[0]]]; }
  }

  lemma SegmentsLive(s: State, segs: seq<Ptr>)
    requires Inv(s) && AllHeld(s, segs)
    ensures forall i :: 0 <= i < |segs| ==> segs[i] in s.mem && segs[i] !in s.free
  {
    forall i | 0 <= i < |segs| ensures segs[i] in s.mem && segs[i] !in s.free {
      assert Held(s, segs[i]);
      HeldIsLive(s, segs[i]);
    }
  }

  lemma BufLenBound(s: State, p: Ptr)
    requires Inv(s) && p in s.mem
    ensures s.mem[p].bufLen < U16 && s.mem[p].dataOff + s.mem[p].dataLen <= s.mem[p].bufLen
    ensures s.mem[p].nbSegs < U16 && s.mem[p].pktLen < U32 && p != NULL
  {
    assert HeaderOk(s.mem, p);
    assert HeaderOk(s.mem, FromIndirect(s.mem[p]));
  }

  lemma {:induction false} BytesSplit(mem: Memory, segs: seq<Ptr>, j: nat)
    requires j < |segs| && AllData(mem, segs)
    ensures AllData(mem, segs[..j]) && AllData(mem, segs[j + 1..])
    ensures Bytes(mem, segs) == Bytes(mem, segs[..j]) + Data(mem, segs[j]) + Bytes(mem, segs[j + 1..])
  {
    BytesConcat(mem, segs[..j], segs[j..]);
    assert segs[..j] + segs[j..] == segs;
    assert segs[j..][1..] == segs[j + 1..];
  }

  /** Only the bytes of the resized segment change. */
  lemma ResizedBytes(s: State, segs: seq<Ptr>, j: nat, mem': Memory)
    requires Inv(s) && Inv(s.(mem := mem')) && AllIn(s.mem, segs) && Distinct(segs)
    requires j < |segs| && Resized(s.mem, segs, j, mem')
    ensures AllData(s.mem, segs) && AllData(mem', segs)
    ensures DataOk(s.mem, segs[j]) && DataOk(mem', segs[j])
    ensures AllData(s.mem, segs[..j]) && AllData(s.mem, segs[j + 1..])
    ensures Bytes(s.mem, segs) == Bytes(s.mem, segs[..j]) + Data(s.mem, segs[j]) + Bytes(s.mem, segs[j + 1..])
    ensures Bytes(mem', segs) == Bytes(s.mem, segs[..j]) + Data(mem', segs[j]) + Bytes(s.mem, segs[j + 1..])
  {
    hide Inv, HeaderOk, CountOk, Bytes, Data;
    InvBytes(s, segs);
    InvBytes(s.(mem := mem'), segs);
    BytesSplit(s.mem, segs, j);
    BytesSplit(mem', segs, j);
    ResizedRest(s.mem, segs, j, mem');
    BytesSame(s.mem, segs[..j], mem', segs[..j]);
    BytesSame(s.mem, segs[j + 1..], mem', segs[j + 1..]);
  }

  lemma ResizedRest(mem: Memory, segs: seq<Ptr>, j: nat, mem': Memory)
    requires AllData(mem, segs) && AllData(mem', segs) && Distinct(segs)
    requires j < |segs| && Resized(mem, segs, j, mem')
    ensures forall i :: 0 <= i < |segs| && i != j ==> Data(mem', segs[i]) == Data(mem, segs[i])
  {
    forall i | 0 <= i < |segs| && i != j ensures Data(mem', segs[i]) == Data(mem, segs[i]) {
      if i != 0 && j != 0 { assert segs[i] != segs[0] && segs[i] != segs[j]; }
      var d := FromIndirect(mem[segs[i]]);
      assert mem'[d].room == mem[d].room;
      DataView(mem, segs[i], mem', segs[i]);
    }
  }

  // ---------- Chaining two packets ----------

  function ChainS(mem: Memory, head: Ptr, cur: Ptr, tail: Ptr): Memory
    requires head in mem && cur in mem && tail in mem
  {
    var mem := mem[cur := mem[cur].(next := tail)];
    var mem := mem[head := mem[head].(nbSegs := mem[head].nbSegs + mem[tail].nbSegs,
                                      pktLen := mem[head].pktLen + mem[tail].pktLen)];
    mem[tail := mem[tail].(pktLen := mem[tail].dataLen)]
  }

  /** Rewriting the link and the counts of one live segment. */
  lemma RelinkKeepsInv(s: State, m: Ptr, next: Ptr, nbSegs: nat, pktLen: nat)
    requires Inv(s) && m in s.mem && m !in s.free && nbSegs < U16 && pktLen < U32
    requires next == NULL ==> nbSegs == 1
    ensures Inv(s.(mem := s.mem[m := s.mem[m].(next := next, nbSegs := nbSegs, pktLen := pktLen)]))
  {
    assert HeaderOk(s.mem, m);
    EditKeepsInv(s, m, s.mem[m].(next := next, nbSegs := nbSegs, pktLen := pktLen));
  }

  lemma ChainedTotal(s: State, head: Ptr, hs: seq<Ptr>, tail: Ptr, ts: seq<Ptr>)
    requires Inv(s) && Packet(s, head, hs) && Packet(s, tail, ts) && |hs| + |ts| <= MAX_NB_SEGS
    ensures s.mem[head].pktLen + s.mem[tail].pktLen < U32
  {
    hide Inv;
    forall i | 0 <= i < |hs| ensures s.mem[hs[i]].dataLen < U16 { BufLenBound(s, hs[i]); }
    forall i | 0 <= i < |ts| ensures s.mem[ts[i]].dataLen < U16 { BufLenBound(s, ts[i]); }
    SumLenBound(s.mem, hs);
    SumLenBound(s.mem, ts);
  }

  lemma ChainedInv(s: State, head: Ptr, hs: seq<Ptr>, tail: Ptr, ts: seq<Ptr>)
    requires Inv(s) && Packet(s, head, hs) && Packet(s, tail, ts)
    requires forall p :: p in hs ==> p !in ts
    requires |hs| + |ts| <= MAX_NB_SEGS
    ensures var cur := hs[|hs| - 1]; Inv(s.(mem := ChainS(s.mem, head, cur, tail)))
    ensures s.mem[head].pktLen + s.mem[tail].pktLen < U32
  {
    hide Inv, SumLen;
    var cur := hs[|hs| - 1];
    assert head in hs && cur in hs && tail in ts;
    SegmentsLive(s, hs);
    SegmentsLive(s, ts);
    ChainedTotal(s, head, hs, tail, ts);
    BufLenBound(s, cur);
    BufLenBound(s, tail);
    RelinkKeepsInv(s, cur, tail, s.mem[cur].nbSegs, s.mem[cur].pktLen);
    var u := s.(mem := s.mem[cur := s.mem[cur].(next := tail)]);
    var n, len := u.mem[head].nbSegs + u.mem[tail].nbSegs, u.mem[head].pktLen + u.mem[tail].pktLen;
    assert |hs| > 1 ==> s.mem[hs[0]].next == hs[1];
    RelinkKeepsInv(u, head, u.mem[head].next, n, len);
    var v := u.(mem := u.mem[head := u.mem[head].(nbSegs := n, pktLen := len)]);
    BufLenBound(v, tail);
    assert |ts| > 1 ==> s.mem[ts[0]].next == ts[1] && ts[1] in ts;
    assert forall i :: 0 <= i < |ts| ==> ts[i] != NULL;
    RelinkKeepsInv(v, tail, v.mem[tail].next, v.mem[tail].nbSegs, v.mem[tail].dataLen);
  }

  lemma ChainedLinked(mem: Memory, head: Ptr, hs: seq<Ptr>, tail: Ptr, ts: seq<Ptr>)
    requires Linked(mem, head, hs) && Linked(mem, tail, ts)
    requires forall p :: p in hs ==> p !in ts
    ensures Linked(ChainS(mem, head, hs[|hs| - 1], tail), head, hs + ts)
  {
    var mem' := ChainS(mem, head, hs[|hs| - 1], tail);
    forall i | 0 <= i < |hs| ensures hs[i] in hs && hs[i] !in ts {}
    forall i | 0 <= i < |ts| ensures ts[i] in ts && ts[i] !in hs {}
    forall i | 0 <= i < |hs| - 1 ensures mem'[hs[i]].next == hs[i + 1] { assert hs[i] != hs[|hs| - 1]; }
  }

  /** Chaining makes one packet of two, with the bytes of the first and then of the second. */
  lemma ChainedPacket(s: State, head: Ptr, hs: seq<Ptr>, tail: Ptr, ts: seq<Ptr>)
    requires Inv(s) && Packet(s, head, hs) && Packet(s, tail, ts)
    requires forall p :: p in hs ==> p !in ts
    requires |hs| + |ts| <= MAX_NB_SEGS
    ensures var t := s.(mem := ChainS(s.mem, head, hs[|hs| - 1], tail));
            && Inv(t) && Packet(t, head, hs + ts)
            && AllData(s.mem, hs) && AllData(s.mem, ts) && AllData(t.mem, hs + ts)
            && Bytes(t.mem, hs + ts) == Bytes(s.mem, hs) + Bytes(s.mem, ts)
  {
    hide Inv, HeaderOk, CountOk, Bytes, Data;
    var t := s.(mem := ChainS(s.mem, head, hs[|hs| - 1], tail));
    assert head in hs && hs[|hs| - 1] in hs && tail in ts;
    ChainedInv(s, head, hs, tail, ts);
    ChainedLinked(s.mem, head, hs, tail, ts);
    assert AllIn(s.mem, hs + ts) && AllIn(t.mem, hs + ts);
    forall i | 0 <= i < |hs + ts| ensures Held(t, (hs + ts)[i]) {
      if i < |hs| { assert Held(s, hs[i]); } else { assert Held(s, ts[i - |hs|]); }
    }
    ChainedBytes(s, hs, ts, t);
  }

  lemma ChainedBytes(s: State, hs: seq<Ptr>, ts: seq<Ptr>, t: State)
    requires Inv(s) && Inv(t) && AllIn(s.mem, hs + ts) && AllIn(t.mem, hs + ts)
    requires forall p :: p in s.mem ==>
               p in t.mem
               && t.mem[p] == s.mem[p].(next := t.mem[p].next, nbSegs := t.mem[p].nbSegs, pktLen := t.mem[p].pktLen)
    ensures AllIn(s.mem, hs) && AllIn(s.mem, ts)
    ensures AllData(s.mem, hs) && AllData(s.mem, ts) && AllData(t.mem, hs + ts)
    ensures Bytes(t.mem, hs + ts) == Bytes(s.mem, hs) + Bytes(s.mem, ts)
  {
    hide Inv, HeaderOk, CountOk, Bytes;
    var segs := hs + ts;
    assert forall i :: 0 <= i < |hs| ==> hs[i] == segs[i];
    assert forall i :: 0 <= i < |ts| ==> ts[i] == segs[|hs| + i];
    InvBytes(s, segs);
    InvBytes(t, segs);
    InvBytes(s, hs);
    InvBytes(s, ts);
    forall i | 0 <= i < |segs| ensures Data(t.mem, segs[i]) == Data(s.mem, segs[i]) {
      DataView(s.mem, segs[i], t.mem, segs[i]);
    }
    BytesSame(s.mem, segs, t.mem, segs);
    BytesConcat(s.mem, hs, ts);
  }

  // ---------- The four operations on a packet ----------

  lemma PacketHead(s: State, head: Ptr, segs: seq<Ptr>)
    requires Inv(s) && Packet(s, head, segs)
    ensures 0 < |segs| < U16 && segs[0] == head && head != NULL
    ensures AllData(s.mem, segs) && AllIn(s.mem, segs) && AllHeld(s, segs)
    ensures head in s.mem && s.mem[head].pktLen < U32 && head !in s.free
  {
    assert HeaderOk(s.mem, head);
    assert Held(s, segs[0]);
    assert CountOk(s, head);
    InvBytes(s, segs);
  }

  lemma PacketDistinct(s: State, head: Ptr, segs: seq<Ptr>)
    requires Packet(s, head, segs)
    ensures Distinct(segs) && Linked(s.mem, head, segs) && |segs| > 0 && segs[0] == head
    ensures forall i :: 0 <= i < |segs| ==> segs[i] in s.mem
  {
  }

  lemma PacketCount(s: State, head: Ptr, segs: seq<Ptr>)
    requires Packet(s, head, segs)
    ensures s.mem[head].nbSegs == |segs|
  {
  }

  lemma PacketTotal(s: State, head: Ptr, segs: seq<Ptr>)
    requires Inv(s) && Packet(s, head, segs)
    ensures s.mem[head].pktLen < U32
    ensures forall p :: p in s.mem ==> s.mem[p].dataLen < U16
  {
    forall p | p in s.mem ensures s.mem[p].dataLen < U16 { BufLenBound(s, p); }
    assert HeaderOk(s.mem, head);
  }

  lemma HeadWithin(s: State, head: Ptr, segs: seq<Ptr>)
    requires Packet(s, head, segs)
    ensures s.mem[head].dataLen <= s.mem[head].pktLen
  {
    SumLenSplit(s.mem, segs, 0);
  }

  lemma LastWithin(s: State, head: Ptr, segs: seq<Ptr>)
    requires Packet(s, head, segs)
    ensures s.mem[segs[|segs| - 1]].dataLen <= s.mem[head].pktLen
  {
    SumLenSplit(s.mem, segs, |segs| - 1);
  }

  /** A segment whose data starts len bytes earlier shows the same bytes from len on. */
  lemma DataPrepended(mem: Memory, m: Ptr, mem': Memory, len: nat)
    requires DataOk(mem, m) && DataOk(mem', m) && len <= mem[m].dataOff
    requires mem'[m] == mem[m].(dataOff := mem[m].dataOff - len, dataLen := mem[m].dataLen + len,
                                pktLen := mem'[m].pktLen)
    requires mem'[FromIndirect(mem[m])].room == mem[FromIndirect(mem[m])].room
    ensures Data(mem', m)[len..] == Data(mem, m)
  {
  }

  lemma DataAppended(mem: Memory, m: Ptr, mem': Memory, len: nat)
    requires DataOk(mem, m) && DataOk(mem', m)
    requires mem'[m] == mem[m].(dataLen := mem[m].dataLen + len, pktLen := mem'[m].pktLen)
    requires mem'[FromIndirect(mem[m])].room == mem[FromIndirect(mem[m])].room
    ensures Data(mem', m)[..mem[m].dataLen] == Data(mem, m)
  {
  }

  /** Prepending exposes len more bytes in front; the packet's own bytes follow them. */
  lemma PrependedPacket(s: State, m: Ptr, segs: seq<Ptr>, len: nat)
    requires Inv(s) && Packet(s, m, segs) && len <= s.mem[m].dataOff
    ensures var t := s.(mem := PrependS(s.mem, m, len));
            && Inv(t) && Packet(t, m, segs)
            && AllData(s.mem, segs) && AllData(t.mem, segs)
            && len <= |Bytes(t.mem, segs)| && Bytes(t.mem, segs)[len..] == Bytes(s.mem, segs)
            && t.mem[m].dataLen < U16 && t.mem[m].pktLen < U32
  {
    hide Inv, Packet, AllData, AllHeld, SumLen, Linked, HeaderOk, CountOk, Attached, Bytes;
    PacketHead(s, m, segs);
    var t := s.(mem := PrependS(s.mem, m, len));
    PacketDistinct(s, m, segs);
    BufLenBound(s, m);
    ResizedPacket(s, m, segs, 0, t.mem);
    ResizedBytes(s, segs, 0, t.mem);
    DataPrepended(s.mem, m, t.mem, len);
    PacketTotal(t, m, segs);
    NoBytes(s.mem, segs[..0]);
    CutFront(Data(t.mem, m), Data(s.mem, m), Bytes(s.mem, segs[1..]), len);
  }

  lemma CutFront(a: seq<Byte>, b: seq<Byte>, rest: seq<Byte>, len: nat)
    requires len <= |a| && a[len..] == b
    ensures len <= |[] + a + rest| && ([] + a + rest)[len..] == [] + b + rest
  {
  }

  lemma AdjustedPacket(s: State, m: Ptr, segs: seq<Ptr>, len: nat)
    requires Inv(s) && Packet(s, m, segs) && len <= s.mem[m].dataLen
    ensures len <= s.mem[m].pktLen
    ensures var t := s.(mem := AdjS(s.mem, m, len));
            && Inv(t) && Packet(t, m, segs)
            && AllData(s.mem, segs) && AllData(t.mem, segs)
            && len <= |Bytes(s.mem, segs)| && Bytes(t.mem, segs) == Bytes(s.mem, segs)[len..]
            && t.mem[m].dataOff < U16
  {
    hide Inv, Packet, AllData, AllHeld, SumLen, Linked, HeaderOk, CountOk, Attached, Bytes;
    PacketHead(s, m, segs);
    HeadWithin(s, m, segs);
    var t := s.(mem := AdjS(s.mem, m, len));
    PacketDistinct(s, m, segs);
    BufLenBound(s, m);
    ResizedPacket(s, m, segs, 0, t.mem);
    ResizedBytes(s, segs, 0, t.mem);
    DataPrepended(t.mem, m, s.mem, len);
    NoBytes(s.mem, segs[..0]);
    CutFront(Data(s.mem, m), Data(t.mem, m), Bytes(s.mem, segs[1..]), len);
  }

  /** Appending and trimming resize the last segment, and the total with it. */
  lemma LastResized(mem: Memory, segs: seq<Ptr>, len: nat)
    requires |segs| > 0 && AllIn(mem, segs) && Distinct(segs)
    ensures var last := segs[|segs| - 1];
            && Resized(mem, segs, |segs| - 1, AppendS(mem, segs[0], last, len))
            && (len <= mem[last].dataLen && len <= mem[segs[0]].pktLen ==>
                  Resized(mem, segs, |segs| - 1, TrimS(mem, segs[0], last, len)))
  {
    assert |segs| > 1 ==> segs[0] != segs[|segs| - 1];
  }

  lemma AppendedPacket(s: State, m: Ptr, segs: seq<Ptr>, len: nat)
    requires Inv(s) && Packet(s, m, segs)
    requires var x := s.mem[segs[|segs| - 1]]; x.dataOff + x.dataLen + len <= x.bufLen
    ensures var last := segs[|segs| - 1];
            var t := s.(mem := AppendS(s.mem, m, last, len));
            && Inv(t) && Packet(t, m, segs)
            && AllData(s.mem, segs) && AllData(t.mem, segs)
            && Bytes(s.mem, segs) <= Bytes(t.mem, segs) && |Bytes(t.mem, segs)| == |Bytes(s.mem, segs)| + len
            && t.mem[last].dataLen < U16 && t.mem[m].pktLen < U32
  {
    hide Inv, Packet, AllData, AllHeld, SumLen, Linked, HeaderOk, CountOk, Attached, Bytes, Resized, Data;
    PacketHead(s, m, segs);
    PacketDistinct(s, m, segs);
    var j := |segs| - 1;
    var last := segs[j];
    var t := s.(mem := AppendS(s.mem, m, last, len));
    BufLenBound(s, last);
    LastResized(s.mem, segs, len);
    assert j != 0 ==> segs[0] != segs[j];
    ResizedPacket(s, m, segs, j, t.mem);
    ResizedBytes(s, segs, j, t.mem);
    LastOk(s.mem, segs);
    LastOk(t.mem, segs);
    DataAppended(s.mem, last, t.mem, len);
    NoBytes(s.mem, segs[j + 1..]);
    PrefixInside(Bytes(s.mem, segs[..j]), Data(s.mem, last), Data(t.mem, last));
    PacketTotal(t, m, segs);
  }

  lemma LastOk(mem: Memory, segs: seq<Ptr>)
    requires |segs| > 0 && AllData(mem, segs)
    ensures DataOk(mem, segs[|segs| - 1])
  {
  }

  lemma PrefixInside(a: seq<Byte>, x: seq<Byte>, y: seq<Byte>)
    requires |x| <= |y| && y[..|x|] == x
    ensures a + x + [] <= a + y + []
  {
  }

  lemma TrimmedPacket(s: State, m: Ptr, segs: seq<Ptr>, len: nat)
    requires Inv(s) && Packet(s, m, segs)
    requires len <= s.mem[segs[|segs| - 1]].dataLen
    ensures len <= s.mem[m].pktLen
    ensures var last := segs[|segs| - 1];
            var t := s.(mem := TrimS(s.mem, m, last, len));
            && Inv(t) && Packet(t, m, segs)
            && AllData(s.mem, segs) && AllData(t.mem, segs)
            && len <= |Bytes(s.mem, segs)|
            && Bytes(t.mem, segs) == Bytes(s.mem, segs)[..|Bytes(s.mem, segs)| - len]
  {
    hide Inv, Packet, AllData, AllHeld, SumLen, Linked, HeaderOk, CountOk, Attached, Bytes;
    LastWithin(s, m, segs);
    PacketHead(s, m, segs);
    PacketDistinct(s, m, segs);
    var j := |segs| - 1;
    var last := segs[j];
    var t := s.(mem := TrimS(s.mem, m, last, len));
    BufLenBound(s, last);
    assert j != 0 ==> segs[0] != segs[j];
    ResizedPacket(s, m, segs, j, t.mem);
    ResizedBytes(s, segs, j, t.mem);
    DataAppended(t.mem, last, s.mem, len);
    NoBytes(s.mem, segs[j + 1..]);
    assert Bytes(t.mem, segs) == Bytes(s.mem, segs[..j]) + Data(t.mem, last);
    assert Bytes(s.mem, segs) == Bytes(s.mem, segs[..j]) + Data(s.mem, last);
    CutTail(Bytes(s.mem, segs[..j]), Data(s.mem, last), Data(t.mem, last), len);
  }

  lemma CutTail(front: seq<Byte>, a: seq<Byte>, b: seq<Byte>, len: nat)
    requires |a| == |b| + len && a[..|b|] == b
    ensures front + b == (front + a)[..|front + a| - len]
  {
  }

  lemma NoBytes(mem: Memory, segs: seq<Ptr>)
    requires segs == []
    ensures AllData(mem, segs) && Bytes(mem, segs) == []
  {
  }
}
