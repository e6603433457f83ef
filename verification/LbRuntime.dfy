/** The loops of the load balancer (examples/load_balancer/runtime.cr): the software-pipelined
    dispatch of received packets to workers, the workers, the transmitting side, and the flushes. */
module LbRuntime {
  import opened Bits
  import opened Nic
  import opened LbBatch

  /** The worker of a packet, from one of its bytes; n_workers - 1 is 32-bit arithmetic. */
  function WorkerOf(byte: nat, nWorkers: nat): nat {
    And(byte, (nWorkers - 1) % U32)
  }

  /** The masked byte names a worker exactly when there is one. */
  lemma WorkerInRange(nWorkers: nat)
    requires nWorkers < U32
    ensures (forall byte :: 0 <= byte < 256 ==> WorkerOf(byte, nWorkers) < nWorkers) <==> nWorkers > 0
  {
    if nWorkers > 0 {
      forall byte | 0 <= byte < 256 ensures WorkerOf(byte, nWorkers) < nWorkers {
        AndAtMost(byte, nWorkers - 1);
      }
    } else {
      assert !(WorkerOf(0, nWorkers) < nWorkers);
    }
  }

  lemma {:induction false} AndTwice(x: nat, m: nat)
    ensures And(And(x, m), m) == And(x, m)
  {
    if x != 0 && m != 0 {
      AndTwice(x / 2, m / 2);
      var h := And(x / 2, m / 2);
      var bit := if x % 2 == 1 && m % 2 == 1 then 1 else 0;
      assert And(x, m) == 2 * h + bit;
      if And(x, m) != 0 {
        assert And(2 * h + bit, m) == 2 * And(h, m / 2) + bit;
      }
    }
  }

  /** A worker gets packets exactly when its id is one the mask leaves as it is; with a number of
      workers that is no power of two, some worker gets none. */
  lemma WorkerReached(w: nat, nWorkers: nat)
    requires w < nWorkers < U32 && w < 256
    ensures (exists byte :: 0 <= byte < 256 && WorkerOf(byte, nWorkers) == w) <==> And(w, nWorkers - 1) == w
  {
    if byte :| 0 <= byte < 256 && WorkerOf(byte, nWorkers) == w {
      AndTwice(byte, nWorkers - 1);
    }
    if And(w, nWorkers - 1) == w {
      assert WorkerOf(w, nWorkers) == w;
    }
  }

  lemma WorkerStarves()
    ensures !exists byte :: 0 <= byte < 256 && WorkerOf(byte, 3) == 1
  {
    assert And(1, 2) == 0;
    WorkerReached(1, 3);
  }

  /** The worker of a packet by the byte at posLb. */
  function ByByte(nWorkers: nat, posLb: nat): Packet -> nat {
    (m: Packet) => if posLb < |m.data| then WorkerOf(m.data[posLb] as nat, nWorkers) else 0
  }

  /** The packets that go to slot i, in order. */
  function Chosen(ms: seq<Packet>, i: nat, slotOf: Packet -> nat): seq<Packet> {
    if ms == [] then []
    else Chosen(ms[..|ms| - 1], i, slotOf) + if slotOf(ms[|ms| - 1]) == i then [ms[|ms| - 1]] else []
  }

  /** How many packets the first n slots get between them. */
  function Shares(ms: seq<Packet>, n: nat, slotOf: Packet -> nat): nat {
    if n == 0 then 0 else Shares(ms, n - 1, slotOf) + |Chosen(ms, n - 1, slotOf)|
  }

  /** The shares of the slots are all of the packets: none is lost and none is handed out twice. */
  lemma {:induction false} SharesAreAll(ms: seq<Packet>, n: nat, slotOf: Packet -> nat)
    requires forall m :: m in ms ==> slotOf(m) < n
    ensures Shares(ms, n, slotOf) == |ms|
  {
    if ms == [] {
      NoShares(n, slotOf);
    } else {
      SharesAreAll(ms[..|ms| - 1], n, slotOf);
      SharesGrow(ms, n, slotOf);
    }
  }

  lemma {:induction false} NoShares(n: nat, slotOf: Packet -> nat)
    ensures Shares([], n, slotOf) == 0
  {
    if n > 0 { NoShares(n - 1, slotOf); }
  }

  lemma {:induction false} SharesGrow(ms: seq<Packet>, n: nat, slotOf: Packet -> nat)
    requires ms != []
    ensures Shares(ms, n, slotOf) == Shares(ms[..|ms| - 1], n, slotOf) + if slotOf(ms[|ms| - 1]) < n then 1 else 0
  {
    if n > 0 { SharesGrow(ms, n - 1, slotOf); }
  }

  lemma {:induction false} ChosenSplit(ms: seq<Packet>, ns: seq<Packet>, i: nat, slotOf: Packet -> nat)
    ensures Chosen(ms + ns, i, slotOf) == Chosen(ms, i, slotOf) + Chosen(ns, i, slotOf)
    decreases |ns|
  {
    if ns == [] {
      assert ms + ns == ms;
    } else {
      ChosenSplit(ms, ns[..|ns| - 1], i, slotOf);
      assert (ms + ns)[..|ms + ns| - 1] == ms + ns[..|ns| - 1];
    }
  }

  /** Choosing one by one, and in any two parts: that is all there is to choosing. */
  lemma ChosenIs(m: Packet, ms: seq<Packet>, ns: seq<Packet>, i: nat, slotOf: Packet -> nat)
    ensures Chosen([], i, slotOf) == []
    ensures Chosen([m], i, slotOf) == if slotOf(m) == i then [m] else []
    ensures Chosen(ms + ns, i, slotOf) == Chosen(ms, i, slotOf) + Chosen(ns, i, slotOf)
  {
    assert [m][..0] == [];
    ChosenSplit(ms, ns, i, slotOf);
  }

  /** A slot gets a packet as often as it comes, if it is the packet's own, and otherwise never. */
  lemma {:induction false} ChosenCounts(ms: seq<Packet>, i: nat, slotOf: Packet -> nat, m: Packet)
    ensures multiset(Chosen(ms, i, slotOf))[m] == if slotOf(m) == i then multiset(ms)[m] else 0
  {
    if ms != [] {
      ChosenCounts(ms[..|ms| - 1], i, slotOf, m);
      assert ms == ms[..|ms| - 1] + [ms[|ms| - 1]];
    }
  }

  /** Only packets have come in since: from was to now. */
  ghost predicate OnlyPuts(was: seq<Event>, now: seq<Event>) {
    was <= now && forall e :: e in now[|was|..] ==> e.PutIn?
  }

  /** Each slot has been given its share of the packets, and nothing else. */
  ghost predicate Handed(was: seq<seq<Event>>, now: seq<seq<Event>>, ms: seq<Packet>, slotOf: Packet -> nat) {
    && |now| == |was|
    && forall i :: 0 <= i < |was| ==>
         OnlyPuts(was[i], now[i]) && Given(now[i]) == Given(was[i]) + Chosen(ms, i, slotOf)
  }

  lemma HandedOne(was: seq<seq<Event>>, now: seq<seq<Event>>, ms: seq<Packet>, m: Packet, taken: nat,
                  slotOf: Packet -> nat)
    requires Handed(was, now, ms, slotOf) && slotOf(m) < |now|
    ensures var i := slotOf(m); Handed(was, now[i := now[i] + [PutIn([m], taken)]], ms + [m], slotOf)
  {
    hide OnlyPuts, Given;
    var s := slotOf(m);
    forall i | 0 <= i < |was|
      ensures var later := now[s := now[s] + [PutIn([m], taken)]];
              OnlyPuts(was[i], later[i]) && Given(later[i]) == Given(was[i]) + Chosen(ms + [m], i, slotOf)
    {
      assert (ms + [m])[..|ms|] == ms;
      if i == s { PutBulk(was[i], now[i], [m], taken); }
    }
  }

  lemma HandedMore(was: seq<seq<Event>>, mid: seq<seq<Event>>, now: seq<seq<Event>>, ms: seq<Packet>,
                   ns: seq<Packet>, slotOf: Packet -> nat)
    requires Handed(was, mid, ms, slotOf) && Handed(mid, now, ns, slotOf)
    ensures Handed(was, now, ms + ns, slotOf)
  {
    hide OnlyPuts, Given, Chosen;
    forall i | 0 <= i < |was|
      ensures OnlyPuts(was[i], now[i]) && Given(now[i]) == Given(was[i]) + Chosen(ms + ns, i, slotOf)
    {
      ChosenSplit(ms, ns, i, slotOf);
      PutsMore(was[i], mid[i], now[i]);
      assert Given(mid[i]) == Given(was[i]) + Chosen(ms, i, slotOf);
    }
  }

  /** How often a slot has been given a packet. */
  lemma HandedCount(was: seq<seq<Event>>, now: seq<seq<Event>>, ms: seq<Packet>, slotOf: Packet -> nat, i: nat,
                    m: Packet)
    requires Handed(was, now, ms, slotOf) && i < |was|
    ensures multiset(Given(now[i]))[m] == multiset(Given(was[i]))[m] + if slotOf(m) == i then multiset(ms)[m] else 0
  {
    hide Given, Chosen, OnlyPuts;
    ChosenCounts(ms, i, slotOf, m);
    assert Given(now[i]) == Given(was[i]) + Chosen(ms, i, slotOf);
  }

  lemma PutsMore(was: seq<Event>, mid: seq<Event>, now: seq<Event>)
    requires OnlyPuts(was, mid) && OnlyPuts(mid, now)
    ensures OnlyPuts(was, now)
  {
    assert now[|was|..] == mid[|was|..] + now[|mid|..];
  }

  // ---------- Where the packets are ----------

  function SentOf(left: seq<Batch>): seq<Packet> {
    if left == [] then [] else SentOf(left[..|left| - 1]) + left[|left| - 1].sent
  }

  function FreedOf(left: seq<Batch>): seq<Packet> {
    if left == [] then [] else FreedOf(left[..|left| - 1]) + left[|left| - 1].freed
  }

  /** Every packet a buffer has had: sent with a batch, freed with a batch, or still pending. */
  function Places(b: Buffer): multiset<Packet> {
    multiset(SentOf(b.left)) + multiset(FreedOf(b.left)) + multiset(b.pending)
  }

  /** The same for the first n of some buffers, each with its events so far. */
  function AllPlaces(events: seq<seq<Event>>, n: nat, burst: nat): multiset<Packet>
    requires n <= |events|
  {
    if n == 0 then multiset{} else AllPlaces(events, n - 1, burst) + Places(Run(EMPTY, events[n - 1], burst))
  }

  lemma {:induction false} GonePlaces(left: seq<Batch>)
    ensures multiset(Gone(left)) == multiset(SentOf(left)) + multiset(FreedOf(left))
  {
    if left != [] { GonePlaces(left[..|left| - 1]); }
  }

  lemma PlacesAreGiven(es: seq<Event>, burst: nat)
    ensures Places(Run(EMPTY, es, burst)) == multiset(Given(es))
  {
    var b := Run(EMPTY, es, burst);
    RunKeeps(EMPTY, es, burst);
    GonePlaces(b.left);
    assert All(EMPTY) == [] && All(EMPTY) + Given(es) == Given(es);
  }

  /** The packets chosen for the first n slots. */
  function ChosenUpto(ms: seq<Packet>, n: nat, slotOf: Packet -> nat): multiset<Packet> {
    if n == 0 then multiset{} else ChosenUpto(ms, n - 1, slotOf) + multiset(Chosen(ms, n - 1, slotOf))
  }

  lemma {:induction false} NoneChosen(n: nat, slotOf: Packet -> nat)
    ensures ChosenUpto([], n, slotOf) == multiset{}
  {
    if n > 0 { NoneChosen(n - 1, slotOf); }
  }

  lemma LastChosen(ms: seq<Packet>, i: nat, slotOf: Packet -> nat)
    requires ms != []
    ensures var m := ms[|ms| - 1];
            multiset(Chosen(ms, i, slotOf))
            == multiset(Chosen(ms[..|ms| - 1], i, slotOf)) + if slotOf(m) == i then multiset{m} else multiset{}
  {
  }

  lemma {:induction false} OneChosen(ms: seq<Packet>, n: nat, slotOf: Packet -> nat)
    requires ms != []
    ensures var m := ms[|ms| - 1];
            ChosenUpto(ms, n, slotOf)
            == ChosenUpto(ms[..|ms| - 1], n, slotOf) + if slotOf(m) < n then multiset{m} else multiset{}
  {
    hide Chosen;
    if n > 0 {
      OneChosen(ms, n - 1, slotOf);
      LastChosen(ms, n - 1, slotOf);
    }
  }

  lemma {:induction false} ChosenIsAll(ms: seq<Packet>, n: nat, slotOf: Packet -> nat)
    requires forall m :: m in ms ==> slotOf(m) < n
    ensures ChosenUpto(ms, n, slotOf) == multiset(ms)
  {
    if ms == [] {
      NoneChosen(n, slotOf);
    } else {
      hide ChosenUpto;
      var init, last := ms[..|ms| - 1], ms[|ms| - 1];
      ChosenIsAll(init, n, slotOf);
      OneChosen(ms, n, slotOf);
      assert slotOf(last) < n by { assert last in ms; }
      LastApart(ms);
    }
  }

  lemma LastApart(ms: seq<Packet>)
    requires ms != []
    ensures multiset(ms) == multiset(ms[..|ms| - 1]) + multiset{ms[|ms| - 1]}
  {
    assert ms == ms[..|ms| - 1] + [ms[|ms| - 1]];
  }

  lemma {:induction false} PlacesGrow(was: seq<seq<Event>>, now: seq<seq<Event>>, ms: seq<Packet>, n: nat,
                                      slotOf: Packet -> nat, burst: nat)
    requires Handed(was, now, ms, slotOf) && n <= |was|
    ensures AllPlaces(now, n, burst) == AllPlaces(was, n, burst) + ChosenUpto(ms, n, slotOf)
  {
    hide Given, Chosen, OnlyPuts, Places, Run;
    if n > 0 {
      PlacesGrow(was, now, ms, n - 1, slotOf, burst);
      PlacesAreGiven(was[n - 1], burst);
      PlacesAreGiven(now[n - 1], burst);
      assert Given(now[n - 1]) == Given(was[n - 1]) + Chosen(ms, n - 1, slotOf);
    }
  }

  /** Of packets handed out to slots that exist, each one is afterwards in exactly one more place:
      a batch that was sent, a batch that was freed, or the pending packets of one slot; and no
      slot has a burst pending. */
  lemma EachPacketOnce(was: seq<seq<Event>>, now: seq<seq<Event>>, ms: seq<Packet>, slotOf: Packet -> nat, burst: nat)
    requires Handed(was, now, ms, slotOf) && burst > 0
    requires forall m :: m in ms ==> slotOf(m) < |was|
    ensures AllPlaces(now, |now|, burst) == AllPlaces(was, |was|, burst) + multiset(ms)
    ensures forall i :: 0 <= i < |now| ==> |Run(EMPTY, now[i], burst).pending| < burst
  {
    PlacesGrow(was, now, ms, |was|, slotOf, burst);
    ChosenIsAll(ms, |was|, slotOf);
    forall i | 0 <= i < |now| ensures |Run(EMPTY, now[i], burst).pending| < burst {
      RunKeeps(EMPTY, now[i], burst);
    }
  }

  // ---------- Dispatching a burst ----------

  /** The first packet of a burst may be alone, and the data pointer of a second is then nil. */
  datatype Maybe = Nil | NotNil(data: seq<Byte>)

  /** The first k packets of a burst have been handed out. */
  ghost predicate HandedUpto(was: seq<seq<Event>>, now: seq<seq<Event>>, ms: seq<Packet>, k: nat,
                             slotOf: Packet -> nat) {
    k <= |ms| && Handed(was, now, ms[..k], slotOf)
  }

  /** Choose the worker of the next packet of a burst and buffer it. */
  method Hand(out: OutBuffers, m: Packet, data: Maybe, nWorkers: nat, posLb: nat, ghost was: seq<seq<Event>>,
              ghost ms: seq<Packet>, ghost k: nat)
    returns (freed: seq<Packet>)
    requires out.Valid() && out.toRing && 0 < nWorkers <= out.slots && nWorkers < U32
    requires k < |ms| && m == ms[k] && data == NotNil(m.data) && HasByte(ms, posLb)
    requires HandedUpto(was, out.events, ms, k, ByByte(nWorkers, posLb))
    modifies out`events, out.mbufs, out.nMbufs, out.flush
    ensures out.Valid() && HandedUpto(was, out.events, ms, k + 1, ByByte(nWorkers, posLb))
  {
    WorkerInRange(nWorkers);
    hide WorkerOf, Handed, And;
    var w := WorkerOf(data.data[posLb] as nat, nWorkers);
    ghost var now := out.events;
    ghost var taken;
    taken, freed := out.BufferToSend(w, m);
    HandedOne(was, now, ms[..k], m, taken, ByByte(nWorkers, posLb));
    assert ms[..k + 1] == ms[..k] + [m];
  }

  predicate HasByte(ms: seq<Packet>, posLb: nat) {
    forall k :: 0 <= k < |ms| ==> posLb < |ms[k].data|
  }

  /** The body of app_lcore_io_rx for one burst of n packets.  The pipeline looks up to two packets
      past the burst; it never dispatches them. */
  method Dispatch(out: OutBuffers, burst: array<Packet>, n: nat, nWorkers: nat, posLb: nat)
    requires out.Valid() && out.toRing && 0 < nWorkers <= out.slots && nWorkers < U32
    requires 0 < n && n + 2 <= burst.Length && 4 <= burst.Length
    requires HasByte(burst[..n], posLb)
    modifies out`events, out.mbufs, out.nMbufs, out.flush
    ensures out.Valid() && Handed(old(out.events), out.events, burst[..n], ByByte(nWorkers, posLb))
  {
    ghost var was, ms := out.events, burst[..n];
    assert ms[..0] == [] && ms[..n] == ms && forall k :: 0 <= k < n ==> ms[k] == burst[k];
    assert HandedUpto(was, was, ms, 0, ByByte(nWorkers, posLb));
    hide Handed, HandedUpto, ByByte, HasByte, OutBuffers.Valid;
    var m10, m11 := burst[0], burst[1];
    var d10, d11 := NotNil(m10.data), Nil;
    if n > 1 { d11 := NotNil(m11.data); }
    var m20, m21 := burst[2], burst[3];
    var j := 0;
    while j + 3 < n
      invariant (j == 0 || j + 2 <= n)
      invariant m10 == burst[j] && m11 == burst[j + 1] && m20 == burst[j + 2] && m21 == burst[j + 3]
      invariant d10 == NotNil(m10.data) && (j + 1 < n ==> d11 == NotNil(m11.data))
      invariant out.Valid() && HandedUpto(was, out.events, ms, j, ByByte(nWorkers, posLb))
    {
      var m00, m01, d00, d01 := m10, m11, d10, d11;
      m10, m11 := m20, m21;
      d10, d11 := NotNil(m20.data), NotNil(m21.data);
      m20, m21 := burst[j + 4], burst[j + 5];
      var freed := Hand(out, m00, d00, nWorkers, posLb, was, ms, j);
      freed := Hand(out, m01, d01, nWorkers, posLb, was, ms, j + 1);
      j := j + 2;
    }
    LastPackets(out, m10, m11, m20, m21, j, n, nWorkers, posLb, was, ms);
    AllHanded(was, out.events, ms, ByByte(nWorkers, posLb));
    assert ms == burst[..n];
  }

  /** The second loop of app_lcore_io_rx: from packet from on, at most three are left, and they
      are in the pipeline. */
  method LastPackets(out: OutBuffers, first: Packet, second: Packet, third: Packet, fourth: Packet,
                     from: nat, n: nat, nWorkers: nat, posLb: nat, ghost was: seq<seq<Event>>, ghost ms: seq<Packet>)
    requires out.Valid() && out.toRing && 0 < nWorkers <= out.slots && nWorkers < U32
    requires from <= n == |ms| <= from + 3 && HasByte(ms, posLb)
    requires from < n ==> first == ms[from]
    requires from + 1 < n ==> second == ms[from + 1]
    requires from + 2 < n ==> third == ms[from + 2]
    requires HandedUpto(was, out.events, ms, from, ByByte(nWorkers, posLb))
    modifies out`events, out.mbufs, out.nMbufs, out.flush
    ensures out.Valid() && HandedUpto(was, out.events, ms, n, ByByte(nWorkers, posLb))
  {
    hide HandedUpto, ByByte, HasByte, OutBuffers.Valid;
    var m10, m11, m20, m21 := first, second, third, fourth;
    var j := from;
    while j < n
      invariant from <= j <= n
      invariant j < n ==> m10 == ms[j]
      invariant j + 1 < n ==> m11 == ms[j + 1]
      invariant j + 2 < n ==> m20 == ms[j + 2]
      invariant out.Valid() && HandedUpto(was, out.events, ms, j, ByByte(nWorkers, posLb))
    {
      var m := m10;
      m10 := m11;
      m11 := m20;
      m20 := m21;
      var freed := Hand(out, m, NotNil(m.data), nWorkers, posLb, was, ms, j);
      j := j + 1;
    }
  }

  lemma AllHanded(was: seq<seq<Event>>, now: seq<seq<Event>>, ms: seq<Packet>, slotOf: Packet -> nat)
    requires HandedUpto(was, now, ms, |ms|, slotOf)
    ensures Handed(was, now, ms, slotOf)
  {
    assert ms[..|ms|] == ms;
  }

  function Joined(bursts: seq<seq<Packet>>): seq<Packet> {
    if bursts == [] then [] else Joined(bursts[..|bursts| - 1]) + bursts[|bursts| - 1]
  }

  /** One burst, and any two parts: that is all there is to joining. */
  lemma {:induction false} JoinedIs(burst: seq<Packet>, a: seq<seq<Packet>>, b: seq<seq<Packet>>)
    ensures Joined([]) == [] && Joined([burst]) == burst
    ensures Joined(a + b) == Joined(a) + Joined(b)
    decreases |b|
  {
    assert [burst][..0] == [];
    if b == [] {
      assert a + b == a;
    } else {
      JoinedIs(burst, a, b[..|b| - 1]);
      assert (a + b)[..|a + b| - 1] == a + b[..|b| - 1];
    }
  }

  /** One queue's turn in app_lcore_io_rx. */
  method RxQueue(out: OutBuffers, mbufIn: array<Packet>, arriving: seq<Packet>, nWorkers: nat, posLb: nat)
    requires out.Valid() && out.toRing && 0 < nWorkers <= out.slots && nWorkers < U32
    requires mbufIn.Length == ARRAY_SIZE && |arriving| + 2 <= ARRAY_SIZE && HasByte(arriving, posLb)
    modifies mbufIn, out`events, out.mbufs, out.nMbufs, out.flush
    ensures out.Valid() && Handed(old(out.events), out.events, arriving, ByByte(nWorkers, posLb))
  {
    assert Handed(out.events, out.events, [], ByByte(nWorkers, posLb));
    hide Handed, ByByte, HasByte;
    var n := RxBurst(mbufIn, arriving);
    if n != 0 {
      Dispatch(out, mbufIn, n, nWorkers, posLb);
    }
  }

  /** The loop of app_lcore_io_rx over the queues of the lcore. */
  method RxQueues(out: OutBuffers, mbufIn: array<Packet>, arriving: seq<seq<Packet>>, nWorkers: nat, posLb: nat)
    requires out.Valid() && out.toRing && 0 < nWorkers <= out.slots && nWorkers < U32
    requires mbufIn.Length == ARRAY_SIZE
    requires forall q :: 0 <= q < |arriving| ==> |arriving[q]| + 2 <= ARRAY_SIZE && HasByte(arriving[q], posLb)
    modifies mbufIn, out`events, out.mbufs, out.nMbufs, out.flush
    ensures out.Valid() && Handed(old(out.events), out.events, Joined(arriving), ByByte(nWorkers, posLb))
  {
    ghost var was := out.events;
    assert Handed(was, was, Joined([]), ByByte(nWorkers, posLb));
    hide Handed, ByByte, Joined, HasByte;
    assert arriving[..0] == [];
    var q := 0;
    while q < |arriving|
      invariant q <= |arriving| && out.Valid()
      invariant Handed(was, out.events, Joined(arriving[..q]), ByByte(nWorkers, posLb))
    {
      ghost var mid := out.events;
      RxQueue(out, mbufIn, arriving[q], nWorkers, posLb);
      HandedMore(was, mid, out.events, Joined(arriving[..q]), arriving[q], ByByte(nWorkers, posLb));
      JoinedOne(arriving, q);
      q := q + 1;
    }
    assert arriving[..q] == arriving;
  }

  /** app_lcore_io_rx: arriving[q] is what the NIC has on queue q. */
  method IoRx(out: OutBuffers, mbufIn: array<Packet>, arriving: seq<seq<Packet>>, nWorkers: nat, posLb: nat)
    requires out.Valid() && out.toRing && 0 < nWorkers <= out.slots && nWorkers < U32
    requires mbufIn.Length == ARRAY_SIZE
    requires forall q :: 0 <= q < |arriving| ==> |arriving[q]| + 2 <= ARRAY_SIZE && HasByte(arriving[q], posLb)
    modifies mbufIn, out`events, out.mbufs, out.nMbufs, out.flush
    ensures out.Valid() && Handed(old(out.events), out.events, Joined(arriving), ByByte(nWorkers, posLb))
    ensures SharedByByte(old(out.events), out.events, Joined(arriving), nWorkers, posLb)
    ensures AllPlaces(out.events, out.slots, out.burst)
         == AllPlaces(old(out.events), out.slots, out.burst) + multiset(Joined(arriving))
  {
    ghost var was := out.events;
    InRangeOf(Joined(arriving), nWorkers, posLb);
    RxQueues(out, mbufIn, arriving, nWorkers, posLb);
    assert |was| == |out.events| == out.slots;
    hide *;
    JoinedBytes(arriving, posLb);
    ByteCounts(was, out.events, Joined(arriving), nWorkers, posLb);
    EachPacketOnce(was, out.events, Joined(arriving), ByByte(nWorkers, posLb), out.burst);
  }

  /** Slot w has got each packet as often as it came, if the byte at posLb, masked, is w, and
      otherwise not once more. */
  ghost predicate SharedByByte(was: seq<seq<Event>>, now: seq<seq<Event>>, ms: seq<Packet>, nWorkers: nat, posLb: nat) {
    && |now| == |was| && 0 < nWorkers && HasByte(ms, posLb)
    && forall w, k :: 0 <= w < |was| && 0 <= k < |ms| ==>
         multiset(Given(now[w]))[ms[k]]
         == multiset(Given(was[w]))[ms[k]]
            + if And(ms[k].data[posLb] as nat, nWorkers - 1) == w then multiset(ms)[ms[k]] else 0
  }

  lemma ByteCounts(was: seq<seq<Event>>, now: seq<seq<Event>>, ms: seq<Packet>, nWorkers: nat, posLb: nat)
    requires Handed(was, now, ms, ByByte(nWorkers, posLb)) && |now| == |was| && 0 < nWorkers < U32 && HasByte(ms, posLb)
    ensures SharedByByte(was, now, ms, nWorkers, posLb)
  {
    hide ByByte, And, Given, Handed;
    forall w, k | 0 <= w < |was| && 0 <= k < |ms|
      ensures multiset(Given(now[w]))[ms[k]]
           == multiset(Given(was[w]))[ms[k]]
              + if And(ms[k].data[posLb] as nat, nWorkers - 1) == w then multiset(ms)[ms[k]] else 0
    {
      OneByte(ms[k], nWorkers, posLb);
      HandedCount(was, now, ms, ByByte(nWorkers, posLb), w, ms[k]);
    }
  }

  lemma {:induction false} JoinedBytes(bursts: seq<seq<Packet>>, posLb: nat)
    requires forall q :: 0 <= q < |bursts| ==> HasByte(bursts[q], posLb)
    ensures HasByte(Joined(bursts), posLb)
  {
    if bursts != [] { JoinedBytes(bursts[..|bursts| - 1], posLb); }
  }

  lemma OneByte(m: Packet, nWorkers: nat, posLb: nat)
    requires 0 < nWorkers < U32 && posLb < |m.data|
    ensures ByByte(nWorkers, posLb)(m) == And(m.data[posLb] as nat, nWorkers - 1)
  {
    hide And;
    ModOf(U32, 0, nWorkers - 1);
  }

  lemma InRangeOf(ms: seq<Packet>, nWorkers: nat, posLb: nat)
    requires 0 < nWorkers < U32
    ensures forall m :: m in ms ==> ByByte(nWorkers, posLb)(m) < nWorkers
  {
    WorkerInRange(nWorkers);
  }

  /** Each slot has seen as many ticks as times says, and nothing else. */
  ghost predicate Ticked(was: seq<seq<Event>>, now: seq<seq<Event>>, times: nat -> nat) {
    && |now| == |was|
    && forall i :: 0 <= i < |was| ==>
         && was[i] <= now[i] && |now[i]| == |was[i]| + times(i)
         && forall k :: |was[i]| <= k < |now[i]| ==> now[i][k].TickOver?
  }

  /** app_lcore_io_rx_flush. */
  method RxFlush(out: OutBuffers, nWorkers: nat)
    requires out.Valid() && out.toRing && nWorkers <= out.slots
    modifies out`events, out.nMbufs, out.flush
    ensures out.Valid() && Ticked(old(out.events), out.events, (w: nat) => if w < nWorkers then 1 else 0)
  {
    ghost var was := out.events;
    var w := 0;
    while w < nWorkers
      invariant w <= nWorkers && out.Valid()
      invariant Ticked(was, out.events, (v: nat) => if v < w then 1 else 0)
    {
      ghost var taken, freed := out.FlushToRing(w);
      w := w + 1;
    }
  }

  /** app_lcore_worker_flush: ringsOut says which ports have a ring. */
  method WorkerFlush(out: OutBuffers, ringsOut: seq<bool>)
    requires out.Valid() && out.toRing && |ringsOut| == out.slots
    modifies out`events, out.nMbufs, out.flush
    ensures out.Valid()
    ensures Ticked(old(out.events), out.events, (p: nat) => if p < |ringsOut| && ringsOut[p] then 1 else 0)
  {
    ghost var was := out.events;
    var p := 0;
    while p < |ringsOut|
      invariant p <= |ringsOut| && out.Valid()
      invariant Ticked(was, out.events, (v: nat) => if v < p && v < |ringsOut| && ringsOut[v] then 1 else 0)
    {
      if ringsOut[p] {
        ghost var taken, freed := out.FlushToRing(p);
      }
      p := p + 1;
    }
  }

  lemma TickedMore(was: seq<seq<Event>>, now: seq<seq<Event>>, ports: seq<nat>, i: nat, taken: nat)
    requires i < |ports| && ports[i] < |now| && Ticked(was, now, (p: nat) => multiset(ports[..i])[p])
    ensures var port := ports[i];
            Ticked(was, now[port := now[port] + [TickOver(taken)]], (p: nat) => multiset(ports[..i + 1])[p])
  {
    forall p: nat ensures multiset(ports[..i + 1])[p] == multiset(ports[..i])[p] + if ports[i] == p then 1 else 0 {
      assert ports[..i + 1] == ports[..i] + [ports[i]];
    }
  }

  /** app_lcore_io_tx_flush: a port that is listed twice is flushed twice. */
  method TxFlush(out: OutBuffers, nicPorts: seq<nat>)
    requires out.Valid() && !out.toRing && (forall p :: p in nicPorts ==> p < out.slots)
    modifies out`events, out.nMbufs, out.flush
    ensures out.Valid() && Ticked(old(out.events), out.events, (p: nat) => multiset(nicPorts)[p])
  {
    ghost var was := out.events;
    assert Ticked(was, was, (p: nat) => multiset(nicPorts[..0])[p]);
    hide Ticked;
    var i := 0;
    while i < |nicPorts|
      invariant i <= |nicPorts| && out.Valid()
      invariant Ticked(was, out.events, (p: nat) => multiset(nicPorts[..i])[p])
    {
      var port := nicPorts[i];
      assert port in nicPorts;
      ghost var now := out.events;
      ghost var taken, freed := out.FlushToNic(port);
      TickedMore(was, now, nicPorts, i, taken);
      i := i + 1;
    }
    assert nicPorts[..i] == nicPorts;
  }

  /** A longest-prefix lookup: a miss, or the port configured for some rule. */
  datatype Lookup = Miss | Hit(port: nat)

  /** The port a worker sends a packet to: on a miss, back where it came from. */
  function ByRoute(lpm: Packet -> Lookup): Packet -> nat {
    (m: Packet) => match lpm(m) case Miss => m.port case Hit(port) => port
  }

  /** What app_lcore_worker does with one bulk of packets.  A port without a ring has none to
      enqueue to. */
  method WorkerBulk(out: OutBuffers, bulk: seq<Packet>, lpm: Packet -> Lookup, ringsOut: seq<bool>)
    requires out.Valid() && out.toRing && |ringsOut| == out.slots
    requires forall m :: m in bulk ==> ByRoute(lpm)(m) < |ringsOut| && ringsOut[ByRoute(lpm)(m)]
    modifies out`events, out.mbufs, out.nMbufs, out.flush
    ensures out.Valid() && Handed(old(out.events), out.events, bulk, ByRoute(lpm))
  {
    ghost var was := out.events;
    assert Handed(was, was, bulk[..0], ByRoute(lpm));
    hide Handed;
    var j := 0;
    while j < |bulk|
      invariant j <= |bulk| && out.Valid() && Handed(was, out.events, bulk[..j], ByRoute(lpm))
    {
      var m := bulk[j];
      var port := match lpm(m) case Miss => m.port case Hit(p) => p;
      assert m in bulk && port == ByRoute(lpm)(m);
      assert ringsOut[port];
      ghost var now := out.events;
      ghost var taken, freed := out.BufferToSend(port, m);
      HandedOne(was, now, bulk[..j], m, taken, ByRoute(lpm));
      assert bulk[..j] + [m] == bulk[..j + 1];
      j := j + 1;
    }
    assert bulk[..j] == bulk;
  }

  /** app_lcore_worker: bulks[i] is what input ring i gives, a full read burst or nothing. */
  method Worker(out: OutBuffers, bulks: seq<seq<Packet>>, lpm: Packet -> Lookup, ringsOut: seq<bool>)
    requires out.Valid() && out.toRing && |ringsOut| == out.slots
    requires forall bulk, m :: bulk in bulks && m in bulk ==> ByRoute(lpm)(m) < |ringsOut| && ringsOut[ByRoute(lpm)(m)]
    modifies out`events, out.mbufs, out.nMbufs, out.flush
    ensures out.Valid() && Handed(old(out.events), out.events, Joined(bulks), ByRoute(lpm))
    ensures SharedByRoute(old(out.events), out.events, Joined(bulks), lpm)
    ensures AllPlaces(out.events, out.slots, out.burst)
         == AllPlaces(old(out.events), out.slots, out.burst) + multiset(Joined(bulks))
  {
    ghost var was := out.events;
    assert Handed(was, was, [], ByRoute(lpm));
    hide Handed, ByRoute, Given, Joined, AllPlaces;
    assert Joined(bulks[..0]) == [] by { JoinedIs([], [], []); }
    var i := 0;
    while i < |bulks|
      invariant i <= |bulks| && out.Valid()
      invariant Handed(was, out.events, Joined(bulks[..i]), ByRoute(lpm))
    {
      assert bulks[i] in bulks;
      JoinedOne(bulks, i);
      ghost var mid := out.events;
      WorkerBulk(out, bulks[i], lpm, ringsOut);
      HandedMore(was, mid, out.events, Joined(bulks[..i]), bulks[i], ByRoute(lpm));
      i := i + 1;
    }
    assert bulks[..i] == bulks;
    forall m | m in Joined(bulks) ensures ByRoute(lpm)(m) < out.slots {
      var k := JoinedFrom(bulks, m);
      assert bulks[k] in bulks;
    }
    RouteCounts(was, out.events, Joined(bulks), lpm);
    EachPacketOnce(was, out.events, Joined(bulks), ByRoute(lpm), out.burst);
  }

  /** Slot p has got each packet as often as it came, if p is the port of the packet's route or,
      without a route, the port it was received on, and otherwise not once more. */
  ghost predicate SharedByRoute(was: seq<seq<Event>>, now: seq<seq<Event>>, ms: seq<Packet>, lpm: Packet -> Lookup) {
    && |now| == |was|
    && forall p, m :: 0 <= p < |was| ==>
         multiset(Given(now[p]))[m]
         == multiset(Given(was[p]))[m]
            + if lpm(m) == Hit(p) || (lpm(m).Miss? && m.port == p) then multiset(ms)[m] else 0
  }

  lemma RouteCounts(was: seq<seq<Event>>, now: seq<seq<Event>>, ms: seq<Packet>, lpm: Packet -> Lookup)
    requires Handed(was, now, ms, ByRoute(lpm)) && |now| == |was|
    ensures SharedByRoute(was, now, ms, lpm)
  {
    hide Given, Handed;
    forall p, m | 0 <= p < |was|
      ensures multiset(Given(now[p]))[m]
           == multiset(Given(was[p]))[m]
              + if lpm(m) == Hit(p) || (lpm(m).Miss? && m.port == p) then multiset(ms)[m] else 0
    {
      HandedCount(was, now, ms, ByRoute(lpm), p, m);
    }
  }

  lemma {:induction false} JoinedFrom(bursts: seq<seq<Packet>>, m: Packet) returns (i: nat)
    requires m in Joined(bursts)
    ensures i < |bursts| && m in bursts[i]
  {
    i := |bursts| - 1;
    if m !in bursts[i] {
      i := JoinedFrom(bursts[..i], m);
    }
  }

  lemma JoinedOne(bursts: seq<seq<Packet>>, i: nat)
    requires i < |bursts|
    ensures Joined(bursts[..i + 1]) == Joined(bursts[..i]) + bursts[i]
  {
    assert bursts[..i + 1][..i] == bursts[..i];
  }

  // ---------- The transmitting side ----------

  /** What f gives in the first k columns of row w, and in all columns of the rows before n. */
  ghost function Row(f: (nat, nat) -> seq<Packet>, w: nat, k: nat): seq<seq<Packet>> {
    seq(k, i requires 0 <= i < k => f(w, i))
  }

  ghost function Rows(f: (nat, nat) -> seq<Packet>, n: nat, cols: nat): seq<seq<Packet>> {
    seq(n, w requires 0 <= w < n => Joined(Row(f, w, cols)))
  }

  /** Row by row, up to column k of row n. */
  ghost function Visited(f: (nat, nat) -> seq<Packet>, n: nat, cols: nat, k: nat): seq<Packet> {
    Joined(Rows(f, n, cols)) + Joined(Row(f, n, k))
  }

  lemma VisitedNone(f: (nat, nat) -> seq<Packet>, n: nat, cols: nat)
    ensures Visited(f, n, cols, 0) == Joined(Rows(f, n, cols))
    ensures n == 0 ==> Visited(f, n, cols, 0) == []
  {
    JoinedIs([], [], []);
    assert Row(f, n, 0) == [];
    assert n == 0 ==> Rows(f, n, cols) == [];
  }

  lemma VisitedNext(f: (nat, nat) -> seq<Packet>, n: nat, cols: nat, k: nat)
    ensures Visited(f, n, cols, k + 1) == Visited(f, n, cols, k) + f(n, k)
  {
    hide Joined;
    assert Row(f, n, k + 1) == Row(f, n, k) + [f(n, k)];
    JoinedIs(f(n, k), Row(f, n, k), [f(n, k)]);
  }

  lemma VisitedRow(f: (nat, nat) -> seq<Packet>, n: nat, cols: nat)
    ensures Visited(f, n + 1, cols, 0) == Visited(f, n, cols, cols)
  {
    hide Joined, Row;
    var row := Joined(Row(f, n, cols));
    assert Rows(f, n + 1, cols) == Rows(f, n, cols) + [row];
    JoinedIs(row, Rows(f, n, cols), [row]);
    VisitedNone(f, n + 1, cols);
  }

  /** What ring (w, i) gives, as far as it is for port p. */
  function GivenTo(ring: (nat, nat) -> seq<Packet>, nicPorts: seq<nat>, p: nat): (nat, nat) -> seq<Packet> {
    (w: nat, i: nat) => if i < |nicPorts| && nicPorts[i] == p then ring(w, i) else []
  }

  /** Each port's buffer has got what the rings visited so far gave for it, and nothing else. */
  ghost predicate Gathered(was: seq<seq<Event>>, now: seq<seq<Event>>, ring: (nat, nat) -> seq<Packet>,
                           nicPorts: seq<nat>, n: nat, k: nat) {
    && |now| == |was|
    && forall p :: 0 <= p < |was| ==>
         && OnlyPuts(was[p], now[p])
         && Given(now[p]) == Given(was[p]) + Visited(GivenTo(ring, nicPorts, p), n, |nicPorts|, k)
  }

  lemma PutBulk(was: seq<Event>, now: seq<Event>, bulk: seq<Packet>, taken: nat)
    requires OnlyPuts(was, now)
    ensures OnlyPuts(was, now + [PutIn(bulk, taken)])
    ensures Given(now + [PutIn(bulk, taken)]) == Given(now) + bulk
  {
    var e := PutIn(bulk, taken);
    GivenSplit(now, [e]);
    assert Given([e]) == bulk + Given([]);
    assert (now + [e])[|was|..] == now[|was|..] + [e];
  }

  /** A slot that got a bulk, or nothing. */
  lemma GatheredSlot(was: seq<Event>, now: seq<Event>, later: seq<Event>, bulk: seq<Packet>, taken: nat,
                     got: seq<Packet>)
    requires OnlyPuts(was, now) && Given(now) == Given(was) + got
    requires later == if bulk == [] then now else now + [PutIn(bulk, taken)]
    ensures OnlyPuts(was, later) && Given(later) == Given(was) + (got + bulk)
  {
    hide OnlyPuts, Given;
    if bulk == [] {
      assert got + bulk == got;
    } else {
      PutBulk(was, now, bulk, taken);
    }
  }

  /** One more ring has been asked: it gave a bulk, or nothing. */
  lemma GatheredOne(was: seq<seq<Event>>, now: seq<seq<Event>>, later: seq<seq<Event>>, taken: nat,
                    ring: (nat, nat) -> seq<Packet>, nicPorts: seq<nat>, n: nat, k: nat)
    requires k < |nicPorts| && nicPorts[k] < |now| && Gathered(was, now, ring, nicPorts, n, k)
    requires var p := nicPorts[k];
             later == if ring(n, k) == [] then now else now[p := now[p] + [PutIn(ring(n, k), taken)]]
    ensures Gathered(was, later, ring, nicPorts, n, k + 1)
  {
    hide OnlyPuts, Given, Visited;
    forall p | 0 <= p < |was|
      ensures OnlyPuts(was[p], later[p])
      ensures Given(later[p]) == Given(was[p]) + Visited(GivenTo(ring, nicPorts, p), n, |nicPorts|, k + 1)
    {
      var f := GivenTo(ring, nicPorts, p);
      VisitedNext(f, n, |nicPorts|, k);
      GatheredSlot(was[p], now[p], later[p], f(n, k), taken, Visited(f, n, |nicPorts|, k));
    }
  }

  lemma GatheredRow(was: seq<seq<Event>>, now: seq<seq<Event>>, ring: (nat, nat) -> seq<Packet>, nicPorts: seq<nat>,
                    n: nat)
    requires Gathered(was, now, ring, nicPorts, n, |nicPorts|)
    ensures Gathered(was, now, ring, nicPorts, n + 1, 0)
  {
    hide OnlyPuts, Given, Visited;
    forall p | 0 <= p < |was|
      ensures Given(now[p]) == Given(was[p]) + Visited(GivenTo(ring, nicPorts, p), n + 1, |nicPorts|, 0)
    {
      VisitedRow(GivenTo(ring, nicPorts, p), n, |nicPorts|);
    }
  }

  lemma GatheredNone(was: seq<seq<Event>>, ring: (nat, nat) -> seq<Packet>, nicPorts: seq<nat>)
    ensures Gathered(was, was, ring, nicPorts, 0, 0)
  {
    hide Given, Visited;
    forall p | 0 <= p < |was|
      ensures Given(was[p]) == Given(was[p]) + Visited(GivenTo(ring, nicPorts, p), 0, |nicPorts|, 0)
    {
      VisitedNone(GivenTo(ring, nicPorts, p), 0, |nicPorts|);
    }
  }

  /** A bulk given to one of the first n buffers is in exactly one more place. */
  lemma {:induction false} PutPlaces(events: seq<seq<Event>>, p: nat, bulk: seq<Packet>, taken: nat, n: nat, burst: nat)
    requires p < |events| && n <= |events|
    ensures var later := events[p := events[p] + [PutIn(bulk, taken)]];
            AllPlaces(later, n, burst) == AllPlaces(events, n, burst) + if p < n then multiset(bulk) else multiset{}
  {
    hide Given, Places, Run;
    if n > 0 {
      PutPlaces(events, p, bulk, taken, n - 1, burst);
      if p == n - 1 {
        PlacesAreGiven(events[p], burst);
        PlacesAreGiven(events[p] + [PutIn(bulk, taken)], burst);
        assert Given(events[p] + [PutIn(bulk, taken)]) == Given(events[p]) + bulk by {
          assert OnlyPuts(events[p], events[p]);
          PutBulk(events[p], events[p], bulk, taken);
        }
      }
    }
  }

  /** Each port has got, for each worker in turn and each place where it is listed, what the ring
      gave, in this order. */
  ghost predicate PortsGot(was: seq<seq<Event>>, now: seq<seq<Event>>, ring: (nat, nat) -> seq<Packet>,
                           nicPorts: seq<nat>, nWorkers: nat) {
    && |now| == |was|
    && forall p :: 0 <= p < |was| ==>
         && OnlyPuts(was[p], now[p])
         && Given(now[p]) == Given(was[p]) + Joined(seq(nWorkers, w requires 0 <= w < nWorkers =>
              Joined(seq(|nicPorts|, i requires 0 <= i < |nicPorts| => if nicPorts[i] == p then ring(w, i) else []))))
  }

  lemma GatheredAll(was: seq<seq<Event>>, now: seq<seq<Event>>, ring: (nat, nat) -> seq<Packet>, nicPorts: seq<nat>,
                    n: nat)
    requires Gathered(was, now, ring, nicPorts, n, 0)
    ensures PortsGot(was, now, ring, nicPorts, n)
  {
    hide OnlyPuts, Given, Joined, Visited;
    var cols := |nicPorts|;
    forall p | 0 <= p < |was|
      ensures Given(now[p]) == Given(was[p]) + Joined(seq(n, w requires 0 <= w < n =>
                Joined(seq(cols, i requires 0 <= i < cols => if nicPorts[i] == p then ring(w, i) else []))))
    {
      var f := GivenTo(ring, nicPorts, p);
      VisitedNone(f, n, cols);
      var b := seq(n, w requires 0 <= w < n =>
                 Joined(seq(cols, i requires 0 <= i < cols => if nicPorts[i] == p then ring(w, i) else [])));
      forall w | 0 <= w < n ensures Rows(f, n, cols)[w] == b[w] {
        assert Row(f, w, cols) == seq(cols, i requires 0 <= i < cols => if nicPorts[i] == p then ring(w, i) else []);
      }
      assert Rows(f, n, cols) == b;
    }
  }

  /** What app_lcore_io_tx has done once the rings visited are those before (n, k). */
  ghost predicate SentUpto(was: seq<seq<Event>>, now: seq<seq<Event>>, ring: (nat, nat) -> seq<Packet>,
                           nicPorts: seq<nat>, n: nat, k: nat, burst: nat) {
    && Gathered(was, now, ring, nicPorts, n, k)
    && AllPlaces(now, |now|, burst) == AllPlaces(was, |was|, burst) + multiset(Visited(ring, n, |nicPorts|, k))
  }

  lemma SentOne(was: seq<seq<Event>>, now: seq<seq<Event>>, later: seq<seq<Event>>, taken: nat,
                ring: (nat, nat) -> seq<Packet>, nicPorts: seq<nat>, n: nat, k: nat, burst: nat)
    requires k < |nicPorts| && nicPorts[k] < |now| && SentUpto(was, now, ring, nicPorts, n, k, burst)
    requires var p := nicPorts[k];
             later == if ring(n, k) == [] then now else now[p := now[p] + [PutIn(ring(n, k), taken)]]
    ensures SentUpto(was, later, ring, nicPorts, n, k + 1, burst)
  {
    hide Gathered, AllPlaces, Visited;
    GatheredOne(was, now, later, taken, ring, nicPorts, n, k);
    VisitedNext(ring, n, |nicPorts|, k);
    if ring(n, k) != [] { PutPlaces(now, nicPorts[k], ring(n, k), taken, |now|, burst); }
  }

  lemma SentRow(was: seq<seq<Event>>, now: seq<seq<Event>>, ring: (nat, nat) -> seq<Packet>, nicPorts: seq<nat>,
                n: nat, burst: nat)
    ensures SentUpto(was, was, ring, nicPorts, 0, 0, burst)
    ensures SentUpto(was, now, ring, nicPorts, n, |nicPorts|, burst)
        ==> SentUpto(was, now, ring, nicPorts, n + 1, 0, burst)
  {
    hide Gathered, AllPlaces, Visited;
    GatheredNone(was, ring, nicPorts);
    VisitedNone(ring, 0, |nicPorts|);
    if SentUpto(was, now, ring, nicPorts, n, |nicPorts|, burst) {
      GatheredRow(was, now, ring, nicPorts, n);
      VisitedRow(ring, n, |nicPorts|);
    }
  }

  lemma SentAll(was: seq<seq<Event>>, now: seq<seq<Event>>, ring: (nat, nat) -> seq<Packet>, nicPorts: seq<nat>,
                n: nat, burst: nat)
    requires SentUpto(was, now, ring, nicPorts, n, 0, burst)
    ensures PortsGot(was, now, ring, nicPorts, n)
    ensures AllPlaces(now, |now|, burst)
         == AllPlaces(was, |was|, burst)
            + multiset(Joined(seq(n, w requires 0 <= w < n =>
                         Joined(seq(|nicPorts|, i requires 0 <= i < |nicPorts| => ring(w, i))))))
  {
    hide Gathered, AllPlaces, Visited, PortsGot, Joined;
    GatheredAll(was, now, ring, nicPorts, n);
    VisitedAll(ring, n, |nicPorts|);
  }

  /** The body of the loops of app_lcore_io_tx, once the ring gave a bulk or nothing. */
  method TxBulk(out: OutBuffers, port: nat, bulk: seq<Packet>) returns (ghost taken: nat)
    requires out.Valid() && !out.toRing && port < out.slots && out.burst - 1 + |bulk| <= ARRAY_SIZE
    modifies out`events, out.mbufs, out.nMbufs, out.flush
    ensures out.Valid() && |old(out.events)| == out.slots
    ensures out.events == if bulk == [] then old(out.events)
                          else old(out.events)[port := old(out.events)[port] + [PutIn(bulk, taken)]]
  {
    taken := 0;
    if bulk != [] {
      var freed;
      taken, freed := out.TakeAndSend(port, bulk);
    }
  }

  /** The nested loops of app_lcore_io_tx. */
  method TxRings(out: OutBuffers, ring: (nat, nat) -> seq<Packet>, nicPorts: seq<nat>, nWorkers: nat, burstRead: nat)
    requires out.Valid() && !out.toRing && out.burst - 1 + burstRead <= ARRAY_SIZE
    requires forall p :: p in nicPorts ==> p < out.slots
    requires forall w, i :: ring(w, i) == [] || |ring(w, i)| == burstRead
    modifies out`events, out.mbufs, out.nMbufs, out.flush
    ensures out.Valid() && SentUpto(old(out.events), out.events, ring, nicPorts, nWorkers, 0, out.burst)
  {
    ghost var was := out.events;
    SentRow(was, was, ring, nicPorts, 0, out.burst);
    assert 0 < out.burst;
    hide SentUpto, OutBuffers.Valid;
    var w := 0;
    while w < nWorkers
      invariant w <= nWorkers && out.Valid() && SentUpto(was, out.events, ring, nicPorts, w, 0, out.burst)
    {
      var i := 0;
      while i < |nicPorts|
        invariant i <= |nicPorts| && out.Valid() && SentUpto(was, out.events, ring, nicPorts, w, i, out.burst)
      {
        assert nicPorts[i] in nicPorts;
        ghost var now := out.events;
        ghost var taken := TxBulk(out, nicPorts[i], ring(w, i));
        SentOne(was, now, out.events, taken, ring, nicPorts, w, i, out.burst);
        i := i + 1;
      }
      SentRow(was, out.events, ring, nicPorts, w, out.burst);
      w := w + 1;
    }
  }

  /** app_lcore_io_tx: for every worker and every listed port, a bulk of burstRead packets or
      nothing from their ring goes to the port's buffer. */
  method IoTx(out: OutBuffers, ring: (nat, nat) -> seq<Packet>, nicPorts: seq<nat>, nWorkers: nat, burstRead: nat)
    requires out.Valid() && !out.toRing && out.burst - 1 + burstRead <= ARRAY_SIZE
    requires forall p :: p in nicPorts ==> p < out.slots
    requires forall w, i :: ring(w, i) == [] || |ring(w, i)| == burstRead
    modifies out`events, out.mbufs, out.nMbufs, out.flush
    ensures out.Valid() && PortsGot(old(out.events), out.events, ring, nicPorts, nWorkers)
    ensures AllPlaces(out.events, |out.events|, out.burst)
         == AllPlaces(old(out.events), |old(out.events)|, out.burst)
            + multiset(Joined(seq(nWorkers, w requires 0 <= w < nWorkers =>
                         Joined(seq(|nicPorts|, i requires 0 <= i < |nicPorts| => ring(w, i))))))
  {
    TxRings(out, ring, nicPorts, nWorkers, burstRead);
    hide *;
    SentAll(old(out.events), out.events, ring, nicPorts, nWorkers, out.burst);
  }

  lemma VisitedAll(f: (nat, nat) -> seq<Packet>, n: nat, cols: nat)
    ensures Visited(f, n, cols, 0)
         == Joined(seq(n, w requires 0 <= w < n => Joined(seq(cols, i requires 0 <= i < cols => f(w, i)))))
  {
    hide Joined, Visited;
    VisitedNone(f, n, cols);
    var b := seq(n, w requires 0 <= w < n => Joined(seq(cols, i requires 0 <= i < cols => f(w, i))));
    forall w | 0 <= w < n ensures Rows(f, n, cols)[w] == b[w] {
      assert Row(f, w, cols) == seq(cols, i requires 0 <= i < cols => f(w, i));
    }
    assert Rows(f, n, cols) == b;
  }
}
