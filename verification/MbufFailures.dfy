/** Well-formed packet memories on which an mbuf operation does less than it promises. */
module MbufFailures {
  import opened Bits
  import opened MbufHeap
  import opened MbufPacket
  import opened MbufGather
  import opened MbufLinearize

  ghost function Zeros(n: nat): (r: seq<Byte>)
    ensures |r| == n
  {
    seq(n, i => 0)
  }

  /** A direct mbuf at p. */
  ghost function Direct(p: Ptr, room: seq<Byte>, refcnt: nat, dataOff: nat, dataLen: nat,
                        next: Ptr, nbSegs: nat, pktLen: nat): Mbuf
  {
    var pool := Pool(0, 0, |room|);
    Mbuf(pool, BufBase(p, pool), 0, |room|, false, refcnt, dataOff, dataLen, next, nbSegs, pktLen, room)
  }

  // ---------- attach: a counter at 0xFFFF ----------

  ghost function FullCounter(): State {
    State(map[1000 := Direct(1000, [], 0xFFFF, 0, 0, NULL, 1, 0), 2000 := Direct(2000, [], 1, 0, 0, NULL, 1, 0)],
          {}, map[1000 := 0xFFFF, 2000 := 1])
  }

  /** An owner with 65535 references: attaching once more leaves its counter at zero although all
      its holders are still there. */
  lemma AttachWraps()
    ensures var s := FullCounter();
            && Inv(s) && Held(s, 2000) && Held(s, 1000) && !s.mem[2000].indirect && s.mem[2000].refcnt == 1
            && FromIndirect(s.mem[1000]) == 1000
            && var t := AttachS(s, 2000, 1000);
               t.mem[1000].refcnt == 0 && Holders(t, 1000) == U16 && !Inv(t)
  {
    var s := FullCounter();
    assert Attached(s.mem, 1000) == {} && Attached(s.mem, 2000) == {};
    assert CountOk(s, 1000) && CountOk(s, 2000);
    var t := AttachS(s, 2000, 1000);
    assert Attached(t.mem, 1000) == {2000};
    assert !CountOk(t, 1000);
  }

  // ---------- linearize: a segment overwritten before its turn ----------

  /** 3000 shows bytes 1 and 2 of the buffer of 1000, and 2000 comes before it in the chain. */
  ghost function Inserted(): State {
    State(map[1000 := Direct(1000, [1, 2, 3, 4, 0, 0, 0, 0], 2, 0, 1, 2000, 3, 5),
              2000 := Direct(2000, [9, 9, 0, 0, 0, 0, 0, 0], 1, 0, 2, 3000, 1, 2),
              3000 := Pointed(Direct(3000, Zeros(8), 1, 0, 0, NULL, 1, 0),
                              Direct(1000, [1, 2, 3, 4, 0, 0, 0, 0], 2, 1, 2, NULL, 1, 2))],
          {}, map[1000 := 1, 2000 := 1, 3000 := 1])
  }

  lemma InsertedInv()
    ensures Inv(Inserted())
  {
    var s := Inserted();
    assert Attached(s.mem, 1000) == {3000} && Attached(s.mem, 2000) == {} && Attached(s.mem, 3000) == {};
    assert CountOk(s, 1000) && CountOk(s, 2000) && CountOk(s, 3000);
  }

  lemma InsertedPacket()
    ensures Packet(Inserted(), 1000, [1000, 2000, 3000])
  {
    hide SumLen;
    SumOfThree(Inserted().mem, 1000, 2000, 3000);
  }

  lemma SumOfThree(mem: Memory, a: Ptr, b: Ptr, c: Ptr)
    requires a in mem && b in mem && c in mem
    ensures SumLen(mem, [a, b, c]) == mem[a].dataLen + mem[b].dataLen + mem[c].dataLen
  {
    assert [a, b, c][1..] == [b, c] && [b, c][1..] == [c] && [c][1..] == [];
    assert SumLen(mem, [c]) == mem[c].dataLen && SumLen(mem, [b, c]) == mem[b].dataLen + SumLen(mem, [c]);
  }

  lemma InsertedData(room: seq<Byte>)
    requires |room| == 8
    ensures var mem := Inserted().mem;
            && AllData(mem, [1000, 2000, 3000]) && AllData(mem, [2000, 3000]) && AllData(mem, [3000])
            && DataOk(mem, 1000) && DataOk(mem, 2000) && DataOk(mem, 3000)
            && Data(mem, 1000) == [1] && Data(mem, 2000) == [9, 9] && Data(mem, 3000) == [2, 3]
            && Shown(mem, 2000, 1000, room) == [9, 9] && Shown(mem, 3000, 1000, room) == room[1..3]
            && mem[2000].dataLen == 2 && mem[3000].dataLen == 2
  {
    hide Inv, Packet;
    InsertedInv();
    InvBytes(Inserted(), [1000, 2000, 3000]);
    assert DataOk(Inserted().mem, [1000, 2000, 3000][1]) && DataOk(Inserted().mem, [1000, 2000, 3000][2]);
  }

  lemma InsertedBytes()
    ensures AllData(Inserted().mem, [1000, 2000, 3000])
    ensures Bytes(Inserted().mem, [1000, 2000, 3000]) == [1, 9, 9, 2, 3]
  {
    hide Inserted, Data, DataOk, Shown;
    InsertedData(Zeros(8));
    var mem, segs, rest := Inserted().mem, [1000, 2000, 3000], [2000, 3000];
    assert segs[1..] == rest && rest[1..] == [3000] && [3000][1..] == [];
    assert Bytes(mem, [3000]) == [2, 3] && Bytes(mem, rest) == [9, 9, 2, 3];
  }

  lemma InsertedRoom()
    ensures var mem := Inserted().mem;
            && AllData(mem, [2000, 3000]) && 1000 in mem && |mem[1000].room| == 8 && SumLen(mem, [2000, 3000]) == 4
            && LenTo(mem, [2000, 3000], 0) == 0 && LenTo(mem, [2000, 3000], 1) == 2
            && CopiedRoom(mem, 1000, 1, [2000, 3000], 2) == [1, 9, 9, 9, 9, 0, 0, 0]
  {
    var mem, rest := Inserted().mem, [2000, 3000];
    assert rest[1..] == [3000] && [3000][1..] == [];
    assert mem[1000].room == [1, 2, 3, 4, 0, 0, 0, 0];
    hide Inserted, Data, DataOk, Shown, LenTo;
    InsertedData(mem[1000].room);
    assert SumLen(mem, [3000]) == 2 && SumLen(mem, rest) == 4;
    LenToNone(mem, rest);
    LenToStep(mem, rest, 0);
    hide SumLen;
    assert CopiedRoom(mem, 1000, 1, rest, 1) == [1, 9, 9, 4, 0, 0, 0, 0];
    InsertedData([1, 9, 9, 4, 0, 0, 0, 0]);
    assert [1, 9, 9, 4, 0, 0, 0, 0][1..3] == [9, 9];
  }

  /** A segment inserted into a buffer that is split between two others: the bytes 1 9 9 2 3 fit,
      no copy overlaps its source, and linearize makes 1 9 9 9 9 of them. */
  lemma LinearizeLoses()
    ensures var s, segs := Inserted(), [1000, 2000, 3000];
            && Inv(s) && Packet(s, 1000, segs)
            && s.mem[1000].dataOff + s.mem[1000].pktLen <= s.mem[1000].bufLen && Apart(s.mem, segs)
            && Gatherable(s.mem, segs)
            && Bytes(s.mem, segs) == [1, 9, 9, 2, 3] && GatheredBytes(s.mem, segs) == [1, 9, 9, 9, 9]
  {
    hide Inv, Packet, SumLen, Bytes, CopiedRoom, LenTo;
    var s, segs := Inserted(), [1000, 2000, 3000];
    InsertedInv();
    InsertedPacket();
    PacketGatherable(s, 1000, segs);
    assert segs[1..] == [2000, 3000];
    InsertedBytes();
    InsertedRoom();
  }

  // ---------- linearize: what another packet shows ----------

  /** 3000, a packet of its own, shows bytes 1 and 2 of the buffer of 1000, to which 2000 is chained. */
  ghost function Bordered(): State {
    State(map[1000 := Direct(1000, [1, 2, 3, 4, 0, 0, 0, 0], 2, 0, 1, 2000, 2, 3),
              2000 := Direct(2000, [9, 9, 0, 0, 0, 0, 0, 0], 1, 0, 2, NULL, 1, 2),
              3000 := Pointed(Direct(3000, Zeros(8), 1, 0, 0, NULL, 1, 0),
                              Direct(1000, [1, 2, 3, 4, 0, 0, 0, 0], 2, 1, 2, NULL, 1, 2))],
          {}, map[1000 := 1, 2000 := 1, 3000 := 1])
  }

  lemma BorderedInv()
    ensures Inv(Bordered())
  {
    var s := Bordered();
    assert Attached(s.mem, 1000) == {3000} && Attached(s.mem, 2000) == {} && Attached(s.mem, 3000) == {};
    assert CountOk(s, 1000) && CountOk(s, 2000) && CountOk(s, 3000);
  }

  lemma BorderedPackets()
    ensures Packet(Bordered(), 1000, [1000, 2000]) && Packet(Bordered(), 3000, [3000])
  {
    var mem := Bordered().mem;
    assert [1000, 2000][1..] == [2000] && [2000][1..] == [] && [3000][1..] == [];
    assert SumLen(mem, [2000]) == 2 && SumLen(mem, [3000]) == 2 && SumLen(mem, [1000, 2000]) == 3;
  }

  lemma BorderedRoom()
    ensures var mem := Bordered().mem;
            && AllData(mem, [2000]) && DataOk(mem, 3000) && 1000 in mem && |mem[1000].room| == 8
            && SumLen(mem, [2000]) == 2 && LenTo(mem, [2000], 0) == 0
            && CopiedRoom(mem, 1000, 1, [2000], 1) == [1, 9, 9, 4, 0, 0, 0, 0]
            && Data(mem, 3000) == [2, 3] && Shown(mem, 3000, 1000, [1, 9, 9, 4, 0, 0, 0, 0]) == [9, 9]
  {
    hide Inv;
    BorderedInv();
    var mem := Bordered().mem;
    InvBytes(Bordered(), [2000, 3000]);
    assert DataOk(mem, [2000, 3000][0]) && DataOk(mem, [2000, 3000][1]);
    assert [2000][1..] == [];
    LenToNone(mem, [2000]);
    hide LenTo;
    assert Shown(mem, 2000, 1000, mem[1000].room) == [9, 9];
  }

  /** A packet that keeps its own bytes when it is linearized, and another one whose bytes 2 3 turn
      into 9 9. */
  lemma OtherPacketLoses()
    ensures var s, segs := Bordered(), [1000, 2000];
            && Inv(s) && Packet(s, 1000, segs) && Packet(s, 3000, [3000])
            && s.mem[1000].dataOff + s.mem[1000].pktLen <= s.mem[1000].bufLen
            && Apart(s.mem, segs) && Spared(s.mem, segs) && !Bystander(s.mem, segs, 3000)
            && Gatherable(s.mem, segs) && DataOk(s.mem, 3000) && FromIndirect(s.mem[3000]) == 1000
            && Data(s.mem, 3000) == [2, 3] && Shown(s.mem, 3000, 1000, GatheredRoom(s.mem, segs)) == [9, 9]
  {
    hide Inv, Packet, SumLen, CopiedRoom, LenTo;
    BorderedInv();
    BorderedPackets();
    PacketGatherable(Bordered(), 1000, [1000, 2000]);
    assert [1000, 2000][1..] == [2000];
    BorderedRoom();
  }

  // ---------- linearize: a length that does not fit an int ----------

  const MANY := 40000
  const LONG := 60000
  const STRIDE := U16

  predicate IsSeg(p: int) { 0 < p <= MANY * STRIDE && p % STRIDE == 0 }

  ghost function ManySegs(): State {
    State(map p: int | 0 < p <= MANY * STRIDE && IsSeg(p) :: Direct(p, Zeros(LONG), 1, 0, LONG,
            if p == MANY * STRIDE then NULL else p + STRIDE,
            if p == MANY * STRIDE then 1 else MANY,
            MANY * LONG),
          {}, map p: int | 0 < p <= MANY * STRIDE && IsSeg(p) :: 1)
  }

  ghost function SegsFrom(i: nat): (segs: seq<Ptr>)
    requires i <= MANY
    ensures |segs| == MANY - i && forall j :: 0 <= j < |segs| ==> segs[j] == (i + j + 1) * STRIDE
  {
    seq(MANY - i, j requires 0 <= j < MANY - i => (i + j + 1) * STRIDE)
  }

  lemma {:induction false} ManyLen(i: nat)
    requires i <= MANY
    ensures AllIn(ManySegs().mem, SegsFrom(i)) && SumLen(ManySegs().mem, SegsFrom(i)) == (MANY - i) * LONG
    decreases MANY - i
  {
    if i < MANY {
      ManyLen(i + 1);
      assert SegsFrom(i)[1..] == SegsFrom(i + 1);
    }
  }

  lemma ManyInv()
    ensures Inv(ManySegs())
  {
    var s := ManySegs();
    forall p | p in s.mem ensures HeaderOk(s.mem, p) && CountOk(s, p) {
      assert Attached(s.mem, p) == {};
    }
  }

  lemma ManyLinked(i: nat)
    requires i < MANY
    ensures var s, p := ManySegs(), SegsFrom(0)[i];
            p in s.mem && p != NULL && Held(s, p) && s.mem[p].next == if i + 1 < MANY then SegsFrom(0)[i + 1] else NULL
  {
  }

  lemma ManyHead()
    ensures var s := ManySegs();
            STRIDE in s.mem && s.mem[STRIDE].nbSegs == MANY && s.mem[STRIDE].pktLen == MANY * LONG
  {
  }

  lemma ManyDistinct()
    ensures Distinct(SegsFrom(0))
  {
  }

  lemma ManyPacket()
    ensures Packet(ManySegs(), STRIDE, SegsFrom(0))
  {
    hide ManySegs, SumLen, Distinct, SegsFrom;
    ManyLen(0);
    ManyHead();
    ManyDistinct();
    var s, segs := ManySegs(), SegsFrom(0);
    forall i | 0 <= i < |segs|
      ensures segs[i] in s.mem && segs[i] != NULL && Held(s, segs[i])
      ensures s.mem[segs[i]].next == if i + 1 < |segs| then segs[i + 1] else NULL
    {
      ManyLinked(i);
    }
    ManyLinked(|segs| - 1);
    assert segs[0] == STRIDE;
  }

  /** 40000 segments of 60000 bytes with no tailroom at all: the guard lets the packet pass. */
  lemma GuardTooWeak()
    ensures var s, segs, x := ManySegs(), SegsFrom(0), ManySegs().mem[STRIDE];
            && Inv(s) && Packet(s, STRIDE, segs)
            && x.dataLen <= x.pktLen < U32 && x.bufLen == x.dataOff + x.dataLen
            && GuardPasses(x.pktLen, x.dataLen, 0) && x.dataOff + x.pktLen > x.bufLen
  {
    ManyInv();
    ManyPacket();
  }
}
