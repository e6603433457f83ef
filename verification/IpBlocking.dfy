/** One pass of the ip_blocking loop (examples/ip_blocking.cr, src/lib/packets.cr and
    src/lib/base.cr): mark the packets from blocked sources, filter the burst in place, send. */
module IpBlocking {
  import opened Bits
  import opened Nic

  const ETH_TYPE_OFS := 0x0c
  const IP_SRC_OFS := 0x1a
  const MARKER_DROP := 1

  /** An mbuf is its index; data has the bytes behind each one's data pointer. */
  type Mbuf = nat

  /** pkt.u16 and pkt.u32: as the processor reads them, low byte first. */
  function Load16(d: seq<Byte>, o: nat): nat
    requires o + 2 <= |d|
  {
    d[o] as nat + 0x100 * (d[o + 1] as nat)
  }

  function Load32(d: seq<Byte>, o: nat): nat
    requires o + 4 <= |d|
  {
    Load16(d, o) + 0x1_0000 * Load16(d, o + 2)
  }

  /** The macro ipv4: an address as a constant that compares with Load32. */
  function Address(a: Byte, b: Byte, c: Byte, d: Byte): nat {
    0x100_0000 * (d as nat) + 0x1_0000 * (c as nat) + 0x100 * (b as nat) + a as nat
  }

  predicate IsIpv4(d: seq<Byte>)
    requires 30 <= |d|
  {
    Load16(d, ETH_TYPE_OFS) == 8
  }

  predicate Blocked(d: seq<Byte>, ips: seq<nat>)
    requires 30 <= |d|
  {
    IsIpv4(d) && Load32(d, IP_SRC_OFS) in ips
  }

  /** An address is its four bytes. */
  lemma AddressInBytes(d: seq<Byte>, x: Byte, y: Byte, z: Byte, w: Byte)
    requires 30 <= |d|
    ensures Load32(d, IP_SRC_OFS) == Address(x, y, z, w) <==> d[26] == x && d[27] == y && d[28] == z && d[29] == w
  {
    SameBytes(d[26] as nat, d[27] as nat, d[28] as nat, d[29] as nat, x as nat, y as nat, z as nat, w as nat);
  }

  /** In the bytes of the packet: EtherType 0x0800, and a source address, in network order, that is
      one of those given. */
  lemma BlockedInBytes(d: seq<Byte>, addresses: seq<seq<Byte>>)
    requires 30 <= |d| && forall i :: 0 <= i < |addresses| ==> |addresses[i]| == 4
    ensures var ips := seq(|addresses|, i requires 0 <= i < |addresses| =>
                         Address(addresses[i][0], addresses[i][1], addresses[i][2], addresses[i][3]));
            Blocked(d, ips) <==> d[12] == 0x08 && d[13] == 0x00 && d[26..30] in addresses
  {
    var ips := seq(|addresses|, i requires 0 <= i < |addresses| =>
                 Address(addresses[i][0], addresses[i][1], addresses[i][2], addresses[i][3]));
    SameBytes(d[12] as nat, d[13] as nat, 0, 0, 8, 0, 0, 0);
    hide Load32, Address;
    forall i | 0 <= i < |addresses| ensures Load32(d, IP_SRC_OFS) == ips[i] <==> d[26..30] == addresses[i] {
      AddressInBytes(d, addresses[i][0], addresses[i][1], addresses[i][2], addresses[i][3]);
    }
    if Load32(d, IP_SRC_OFS) in ips {
      var i :| 0 <= i < |ips| && ips[i] == Load32(d, IP_SRC_OFS);
      assert addresses[i] == d[26..30];
    }
    if d[26..30] in addresses {
      var i :| 0 <= i < |addresses| && addresses[i] == d[26..30];
      assert ips[i] in ips;
    }
  }

  lemma SameBytes(a: nat, b: nat, c: nat, d: nat, x: nat, y: nat, z: nat, w: nat)
    requires a < 256 && b < 256 && c < 256 && d < 256 && x < 256 && y < 256 && z < 256 && w < 256
    ensures a + 0x100 * b + 0x1_0000 * (c + 0x100 * d) == x + 0x100 * y + 0x1_0000 * z + 0x100_0000 * w
       <==> a == x && b == y && c == z && d == w
  {
    if a + 0x100 * b + 0x1_0000 * (c + 0x100 * d) == x + 0x100 * y + 0x1_0000 * z + 0x100_0000 * w {
      assert a - x == 256 * (y - b + 256 * (z - c) + 65536 * (w - d));
      assert a == x;
      assert y - b == 256 * (c - z + 256 * (d - w));
      assert b == y;
      assert c == z;
    }
  }

  /** The elements that satisfy keep, in their order. */
  function Select(ms: seq<Mbuf>, keep: Mbuf -> bool): (r: seq<Mbuf>)
    ensures |r| <= |ms|
  {
    if ms == [] then []
    else Select(ms[..|ms| - 1], keep) + if keep(ms[|ms| - 1]) then [ms[|ms| - 1]] else []
  }

  function Not(keep: Mbuf -> bool): Mbuf -> bool { (m: Mbuf) => !keep(m) }

  /** Keeping some and keeping the others splits the sequence. */
  lemma {:induction false} SelectSplits(ms: seq<Mbuf>, keep: Mbuf -> bool)
    ensures multiset(Select(ms, keep)) + multiset(Select(ms, Not(keep))) == multiset(ms)
    ensures forall m :: m in Select(ms, keep) <==> m in ms && keep(m)
  {
    if ms != [] {
      var init, last := ms[..|ms| - 1], ms[|ms| - 1];
      SelectSplits(init, keep);
      assert ms == init + [last];
    }
  }

  lemma {:induction false} SelectSame(ms: seq<Mbuf>, keep: Mbuf -> bool, keep': Mbuf -> bool)
    requires forall m :: m in ms ==> keep(m) == keep'(m)
    ensures Select(ms, keep) == Select(ms, keep')
  {
    if ms != [] { SelectSame(ms[..|ms| - 1], keep, keep'); }
  }

  lemma SelectNext(ms: seq<Mbuf>, m: Mbuf, keep: Mbuf -> bool)
    ensures Select([], keep) == []
    ensures Select(ms + [m], keep) == if keep(m) then Select(ms, keep) + [m] else Select(ms, keep)
  {
    assert (ms + [m])[..|ms|] == ms;
  }

  ghost predicate Distinct(ms: seq<Mbuf>) {
    forall a, b :: 0 <= a < b < |ms| ==> ms[a] != ms[b]
  }

  predicate InRange(ms: seq<Mbuf>, n: nat) {
    forall i :: 0 <= i < |ms| ==> ms[i] < n
  }

  predicate InPool(ms: seq<Mbuf>, data: seq<seq<Byte>>, n: nat) {
    n <= |data| && forall m :: m in ms ==> m < n && 30 <= |data[m]|
  }

  /** process_each_packets: mark what is to be dropped. */
  method MarkEach(pkts: array<Mbuf>, nbRx: nat, userdata: array<nat>, data: seq<seq<Byte>>, ips: seq<nat>)
    requires nbRx <= pkts.Length && InPool(pkts[..nbRx], data, userdata.Length) && pkts != userdata
    modifies userdata
    ensures forall m :: 0 <= m < userdata.Length ==>
              userdata[m] == if m in pkts[..nbRx] && Blocked(data[m], ips) then MARKER_DROP else old(userdata[m])
  {
    for i := 0 to nbRx
      invariant forall m :: 0 <= m < userdata.Length ==>
                  userdata[m] == if m in pkts[..i] && Blocked(data[m], ips) then MARKER_DROP else old(userdata[m])
    {
      var m := pkts[i];
      assert m in pkts[..nbRx];
      assert pkts[..i + 1] == pkts[..i] + [m];
      if IsIpv4(data[m]) && Load32(data[m], IP_SRC_OFS) in ips {
        userdata[m] := MARKER_DROP;
      }
    }
  }

  function Unmarked(userdata: seq<nat>): Mbuf -> bool {
    (m: Mbuf) => !(m < |userdata| && userdata[m] == MARKER_DROP)
  }

  /** Where the filter stands at packet idx of ms: j packets kept at the front of the buffer. */
  ghost predicate Filtering(ms: seq<Mbuf>, marks: seq<nat>, idx: nat, buf: seq<Mbuf>, j: nat, freed: seq<Mbuf>,
                            now: seq<nat>) {
    && idx <= |ms| <= |buf| && j <= idx
    && buf[..j] == Select(ms[..idx], Unmarked(marks)) && freed == Select(ms[..idx], Not(Unmarked(marks)))
    && (forall k :: idx <= k < |ms| ==> buf[k] == ms[k])
    && Cleared(marks, now, ms[..idx])
  }

  lemma FilterStep(ms: seq<Mbuf>, marks: seq<nat>, idx: nat, buf: seq<Mbuf>, j: nat, freed: seq<Mbuf>, now: seq<nat>)
    requires Filtering(ms, marks, idx, buf, j, freed, now) && idx < |ms| && Distinct(ms) && InRange(ms, |marks|)
    ensures buf[idx] < |now| && j <= idx
    ensures var m := buf[idx];
            if now[m] == MARKER_DROP then Filtering(ms, marks, idx + 1, buf, j, freed + [m], now[m := 0])
            else Filtering(ms, marks, idx + 1, buf[j := m], j + 1, freed, now)
  {
    hide Select, Cleared, Distinct, InRange, Unmarked, Not;
    var m, init := ms[idx], ms[..idx];
    assert buf[idx] == m;
    NextIsNew(ms, idx, |marks|);
    assert ms[..idx + 1] == init + [m];
    ClearedNext(marks, now, init, m);
    UnmarkedIs(marks, m);
    SelectNext(init, m, Unmarked(marks));
    SelectNext(init, m, Not(Unmarked(marks)));
    assert buf[j := m][..j + 1] == buf[..j] + [m];
  }

  lemma NextIsNew(ms: seq<Mbuf>, i: nat, n: nat)
    requires Distinct(ms) && InRange(ms, n) && i < |ms|
    ensures ms[i] < n && ms[i] !in ms[..i]
  {
  }

  lemma UnmarkedIs(marks: seq<nat>, m: Mbuf)
    requires m < |marks|
    ensures Unmarked(marks)(m) == (marks[m] != MARKER_DROP) && Not(Unmarked(marks))(m) != Unmarked(marks)(m)
  {
  }

  lemma FilterStart(ms: seq<Mbuf>, marks: seq<nat>, buf: seq<Mbuf>)
    requires ms <= buf
    ensures Filtering(ms, marks, 0, buf, 0, [], marks)
  {
  }

  lemma FilterDone(ms: seq<Mbuf>, marks: seq<nat>, buf: seq<Mbuf>, j: nat, freed: seq<Mbuf>, now: seq<nat>)
    requires Filtering(ms, marks, |ms|, buf, j, freed, now)
    ensures j <= |ms| <= |buf| && buf[..j] == Select(ms, Unmarked(marks)) && freed == Select(ms, Not(Unmarked(marks)))
    ensures |now| == |marks|
    ensures forall m :: 0 <= m < |marks| ==>
              now[m] == if m in ms && marks[m] == MARKER_DROP then 0 else marks[m]
  {
    assert ms[..|ms|] == ms;
  }

  /** drop_unsupported: a stable filter in place; the marked packets are freed, each once, and
      their marks cleared. */
  method DropUnsupported(pkts: array<Mbuf>, nbRx: nat, userdata: array<nat>) returns (j: nat, freed: seq<Mbuf>)
    requires nbRx <= pkts.Length && pkts != userdata
    requires Distinct(pkts[..nbRx]) && InRange(pkts[..nbRx], userdata.Length)
    modifies pkts, userdata
    ensures j <= nbRx && pkts[..j] == Select(old(pkts[..nbRx]), Unmarked(old(userdata[..])))
    ensures freed == Select(old(pkts[..nbRx]), Not(Unmarked(old(userdata[..]))))
    ensures forall m :: 0 <= m < userdata.Length ==>
              userdata[m] == if m in old(pkts[..nbRx]) && old(userdata[m]) == MARKER_DROP then 0 else old(userdata[m])
  {
    hide Filtering, Select, Cleared, Distinct, InRange, Unmarked, Not;
    ghost var ms, marks := pkts[..nbRx], userdata[..];
    FilterStart(ms, marks, pkts[..]);
    j, freed := 0, [];
    for idx: nat := 0 to nbRx
      invariant j <= idx && Filtering(ms, marks, idx, pkts[..], j, freed, userdata[..])
    {
      ghost var buf: seq<Mbuf>, now: seq<nat> := pkts[..], userdata[..];
      FilterStep(ms, marks, idx, buf, j, freed, now);
      var m := pkts[idx];
      if userdata[m] == MARKER_DROP {
        userdata[m] := 0;
        assert userdata[..] == now[m := 0];
        freed := freed + [m];
      } else {
        if j < idx { pkts[j] := pkts[idx]; }
        assert pkts[..] == buf[j := m];
        j := j + 1;
      }
    }
    FilterDone(ms, marks, pkts[..], j, freed, userdata[..]);
  }

  /** The marks of the packets done are cleared, and nothing else. */
  ghost predicate Cleared(was: seq<nat>, now: seq<nat>, done: seq<Mbuf>) {
    |now| == |was| && forall m :: 0 <= m < |was| ==> now[m] == if m in done && was[m] == MARKER_DROP then 0 else was[m]
  }

  lemma ClearedNext(was: seq<nat>, now: seq<nat>, done: seq<Mbuf>, m: Mbuf)
    requires Cleared(was, now, done) && m !in done && m < |was|
    ensures |now| == |was| && now[m] == was[m]
    ensures Cleared(was, if now[m] == MARKER_DROP then now[m := 0] else now, done + [m])
  {
  }

  /** rte_eth_tx_burst?: the NIC takes as many of the packets, the first ones, as it has room for,
      and the rest are freed. */
  method TxOrFree(pkts: array<Mbuf>, nbRx: nat, room: nat) returns (sent: seq<Mbuf>, freed: seq<Mbuf>)
    requires nbRx <= pkts.Length
    ensures sent + freed == pkts[..nbRx]
    ensures nbRx <= room ==> freed == []
    ensures nbRx > room ==> |sent| == room
  {
    sent, freed := [], [];
    if nbRx > 0 {
      var nbTx := TxBurst(nbRx, room);
      sent := pkts[..nbTx];
      while nbTx < nbRx
        invariant |sent| <= nbTx <= nbRx && sent + freed == pkts[..nbTx]
        invariant nbRx <= room ==> nbTx == nbRx && freed == []
      {
        freed := freed + [pkts[nbTx]];
        nbTx := nbTx + 1;
      }
    }
  }

  /** What the pass forwards: packets that are not from a blocked source and came unmarked. */
  function Forwarded(marks: seq<nat>, data: seq<seq<Byte>>, ips: seq<nat>): Mbuf -> bool {
    (m: Mbuf) => !(m < |marks| && marks[m] == MARKER_DROP) && !(m < |data| && 30 <= |data[m]| && Blocked(data[m], ips))
  }

  /** main_loop, once, for the burst that arrives and a NIC that has room for so many packets: it
      sends, in order, as many as there is room for of exactly the packets to forward, and frees
      each other packet exactly once.  No mark is left behind. */
  method Pass(pkts: array<Mbuf>, arriving: seq<Mbuf>, userdata: array<nat>, data: seq<seq<Byte>>, ips: seq<nat>,
              room: nat)
    returns (sent: seq<Mbuf>, freed: seq<Mbuf>)
    requires |arriving| <= pkts.Length && pkts != userdata
    requires Distinct(arriving) && InPool(arriving, data, userdata.Length)
    modifies pkts, userdata
    ensures var keep := Forwarded(old(userdata[..]), data, ips);
            && sent <= Select(arriving, keep) && freed == Select(arriving, Not(keep)) + Select(arriving, keep)[|sent|..]
            && (|Select(arriving, keep)| <= room ==> sent == Select(arriving, keep))
            && (|Select(arriving, keep)| > room ==> |sent| == room)
    ensures forall m :: 0 <= m < userdata.Length ==>
              userdata[m] ==
                if m in arriving && (old(userdata[m]) == MARKER_DROP || Blocked(data[m], ips)) then 0
                else old(userdata[m])
  {
    ghost var ms, marks := arriving, userdata[..];
    ghost var keep := Forwarded(marks, data, ips);
    var nbRx := RxBurst(pkts, arriving);
    if nbRx == 0 { return [], []; }
    MarkEach(pkts, nbRx, userdata, data, ips);
    forall m | m in ms ensures Unmarked(userdata[..])(m) == keep(m) {
      assert m in pkts[..nbRx] && m < userdata.Length && 30 <= |data[m]|;
      assert userdata[m] == if Blocked(data[m], ips) then MARKER_DROP else marks[m];
      assert Unmarked(userdata[..])(m) == !(userdata[m] == MARKER_DROP);
      assert keep(m) == (marks[m] != MARKER_DROP && !Blocked(data[m], ips));
    }
    SelectSame(ms, Unmarked(userdata[..]), keep);
    SelectSame(ms, Not(Unmarked(userdata[..])), Not(keep));
    assert InRange(pkts[..nbRx], userdata.Length) by {
      assert forall k :: 0 <= k < nbRx ==> ms[k] in ms;
    }
    var n, dropped := DropUnsupported(pkts, nbRx, userdata);
    var rest;
    sent, rest := TxOrFree(pkts, n, room);
    freed := dropped + rest;
  }

  /** The packets sent and freed are together the packets received, each once. */
  lemma PassConserves(ms: seq<Mbuf>, keep: Mbuf -> bool, sent: seq<Mbuf>, freed: seq<Mbuf>)
    requires sent <= Select(ms, keep) && freed == Select(ms, Not(keep)) + Select(ms, keep)[|sent|..]
    ensures multiset(sent) + multiset(freed) == multiset(ms)
  {
    SelectSplits(ms, keep);
    assert sent + Select(ms, keep)[|sent|..] == Select(ms, keep);
  }

  function NotBlocked(data: seq<seq<Byte>>, ips: seq<nat>): Mbuf -> bool {
    (m: Mbuf) => !(m < |data| && 30 <= |data[m]| && Blocked(data[m], ips))
  }

  /** What is forwarded is exactly what is not from a blocked source when, and only when, no such
      packet came with a stale mark. */
  lemma ForwardsTheUnblocked(ms: seq<Mbuf>, marks: seq<nat>, data: seq<seq<Byte>>, ips: seq<nat>)
    requires InPool(ms, data, |marks|)
    ensures Select(ms, Forwarded(marks, data, ips)) == Select(ms, NotBlocked(data, ips))
       <==> (forall m :: m in ms && !Blocked(data[m], ips) ==> marks[m] != MARKER_DROP)
  {
    var f, g := Forwarded(marks, data, ips), NotBlocked(data, ips);
    if forall m :: m in ms && !Blocked(data[m], ips) ==> marks[m] != MARKER_DROP {
      forall m | m in ms ensures f(m) == g(m) {
        assert m < |marks| && 30 <= |data[m]|;
        assert f(m) == (marks[m] != MARKER_DROP && g(m));
      }
      SelectSame(ms, f, g);
    } else {
      var m :| m in ms && !Blocked(data[m], ips) && marks[m] == MARKER_DROP;
      SelectSplits(ms, f);
      SelectSplits(ms, g);
      assert m < |marks| && 30 <= |data[m]|;
      assert g(m) && !f(m);
      assert m in Select(ms, g) && m !in Select(ms, f);
    }
  }

  /** One packet that nothing blocks, received in an mbuf whose userdata happens to be 1: it is not
      forwarded, so it is among the packets freed. */
  lemma StaleMarkDrops(d: seq<Byte>, ips: seq<nat>)
    requires 30 <= |d| && !Blocked(d, ips)
    ensures InPool([0], [d], 1)
    ensures Select([0], NotBlocked([d], ips)) == [0] && Select([0], Forwarded([MARKER_DROP], [d], ips)) == []
    ensures Select([0], Not(Forwarded([MARKER_DROP], [d], ips))) == [0]
  {
    var f, g := Forwarded([MARKER_DROP], [d], ips), NotBlocked([d], ips);
    assert [] + [0] == [0];
    SelectNext([], 0, f);
    SelectNext([], 0, g);
    SelectNext([], 0, Not(f));
    assert g(0) && !f(0);
  }
}
