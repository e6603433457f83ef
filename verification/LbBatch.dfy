/** Batching in the load balancer (examples/load_balancer/runtime.cr): an output buffer collects
    packets until a burst is full, and a periodic flush sends what has waited since the tick
    before. */
module LbBatch {
  import opened Bits
  import opened Nic

  /** A packet: its data as bytes, and the port it was received on. */
  datatype Packet = Packet(id: nat, data: seq<Byte>, port: nat)

  /** Packets that left a buffer together: what the ring or the NIC took, and the rest, freed. */
  datatype Batch = Batch(sent: seq<Packet>, freed: seq<Packet>)

  /** One output buffer, with every batch that has left it. */
  datatype Buffer = Buffer(pending: seq<Packet>, flagged: bool, left: seq<Batch>)

  datatype Event = PutIn(ms: seq<Packet>, taken: nat) | TickOver(taken: nat)

  function Leave(b: Buffer, taken: nat, flag: bool): Buffer {
    var k := Min(taken, |b.pending|);
    Buffer([], flag, b.left + [Batch(b.pending[..k], b.pending[k..])])
  }

  /** Packets go into the buffer, which leaves when it holds a burst. */
  function Put(b: Buffer, ms: seq<Packet>, burst: nat, taken: nat): Buffer {
    var b' := b.(pending := b.pending + ms);
    if |b'.pending| < burst then b' else Leave(b', taken, false)
  }

  /** One pass of a flush function over the buffer. */
  function Tick(b: Buffer, taken: nat): Buffer {
    if !b.flagged || b.pending == [] then b.(flagged := true) else Leave(b, taken, true)
  }

  function Step(b: Buffer, e: Event, burst: nat): Buffer {
    match e
    case PutIn(ms, taken) => Put(b, ms, burst, taken)
    case TickOver(taken) => Tick(b, taken)
  }

  function Run(b: Buffer, es: seq<Event>, burst: nat): Buffer
    decreases |es|
  {
    if es == [] then b else Run(Step(b, es[0], burst), es[1..], burst)
  }

  function Given(es: seq<Event>): seq<Packet> {
    if es == [] then [] else (if es[0].PutIn? then es[0].ms else []) + Given(es[1..])
  }

  /** The packets that have left, in the order they came. */
  function Gone(left: seq<Batch>): seq<Packet> {
    if left == [] then [] else Gone(left[..|left| - 1]) + left[|left| - 1].sent + left[|left| - 1].freed
  }

  /** Everything the buffer was ever given. */
  function All(b: Buffer): seq<Packet> { Gone(b.left) + b.pending }

  lemma LeaveKeeps(b: Buffer, taken: nat, flag: bool)
    ensures All(Leave(b, taken, flag)) == All(b) == Gone(Leave(b, taken, flag).left)
  {
    var k := Min(taken, |b.pending|);
    var batch := Batch(b.pending[..k], b.pending[k..]);
    assert (b.left + [batch])[..|b.left|] == b.left;
    assert b.pending[..k] + b.pending[k..] == b.pending;
    assert Gone(b.left) + batch.sent + batch.freed == Gone(b.left) + (batch.sent + batch.freed);
  }

  /** Whatever the ring or the NIC does, a step loses no packet, doubles none and keeps their
      order, and leaves less than a burst behind. */
  lemma StepKeeps(b: Buffer, e: Event, burst: nat)
    ensures All(Step(b, e, burst)) == All(b) + Given([e])
    ensures |b.pending| < burst ==> |Step(b, e, burst).pending| < burst
  {
    assert Given([e]) == (if e.PutIn? then e.ms else []) + Given([]);
    match e
    case PutIn(ms, taken) =>
      var b' := b.(pending := b.pending + ms);
      assert All(b') == All(b) + ms;
      LeaveKeeps(b', taken, false);
    case TickOver(taken) => LeaveKeeps(b, taken, true);
  }

  /** Over any run, each packet given is in exactly one place: gone with one batch, or pending. */
  lemma {:induction false} RunKeeps(b: Buffer, es: seq<Event>, burst: nat)
    ensures All(Run(b, es, burst)) == All(b) + Given(es)
    ensures |b.pending| < burst ==> |Run(b, es, burst).pending| < burst
    decreases |es|
  {
    if es != [] {
      StepKeeps(b, es[0], burst);
      RunKeeps(Step(b, es[0], burst), es[1..], burst);
      assert Given([es[0]]) + Given(es[1..]) == Given(es);
    }
  }

  lemma StepAdds(b: Buffer, e: Event, burst: nat)
    ensures Gone(b.left) <= Gone(Step(b, e, burst).left)
    ensures e.PutIn? && b.flagged ==> Step(b, e, burst).flagged || All(b) <= Gone(Step(b, e, burst).left)
  {
    StepKeeps(b, e, burst);
    match e
    case PutIn(ms, taken) => LeaveKeeps(b.(pending := b.pending + ms), taken, false);
    case TickOver(taken) => LeaveKeeps(b, taken, true);
  }

  /** While only packets come in, a buffer that has been flagged stays so unless a batch leaves. */
  lemma {:induction false} FlagStays(b: Buffer, es: seq<Event>, burst: nat)
    requires forall e :: e in es ==> e.PutIn?
    requires b.flagged
    ensures Gone(b.left) <= Gone(Run(b, es, burst).left)
    ensures Run(b, es, burst).flagged || All(b) <= Gone(Run(b, es, burst).left)
    decreases |es|
  {
    if es != [] {
      var b' := Step(b, es[0], burst);
      StepAdds(b, es[0], burst);
      StepKeeps(b, es[0], burst);
      if b'.flagged {
        FlagStays(b', es[1..], burst);
      } else {
        GoneGrows(b', es[1..], burst);
      }
    }
  }

  lemma {:induction false} GoneGrows(b: Buffer, es: seq<Event>, burst: nat)
    ensures Gone(b.left) <= Gone(Run(b, es, burst).left)
    decreases |es|
  {
    if es != [] {
      StepAdds(b, es[0], burst);
      GoneGrows(Step(b, es[0], burst), es[1..], burst);
    }
  }

  lemma {:induction false} RunSplit(b: Buffer, es: seq<Event>, fs: seq<Event>, burst: nat)
    ensures Run(b, es + fs, burst) == Run(Run(b, es, burst), fs, burst)
    decreases |es|
  {
    if es == [] {
      assert es + fs == fs;
    } else {
      RunSplit(Step(b, es[0], burst), es[1..], fs, burst);
      assert (es + fs)[1..] == es[1..] + fs;
    }
  }

  lemma RunOne(b: Buffer, es: seq<Event>, e: Event, burst: nat)
    ensures Run(b, es + [e], burst) == Step(Run(b, es, burst), e, burst)
  {
    RunSplit(b, es, [e], burst);
    assert Run(Run(b, es, burst), [e], burst) == Step(Run(b, es, burst), e, burst);
  }

  lemma {:induction false} GivenSplit(es: seq<Event>, fs: seq<Event>)
    ensures Given(es + fs) == Given(es) + Given(fs)
  {
    if es == [] {
      assert es + fs == fs;
    } else {
      GivenSplit(es[1..], fs);
      assert (es + fs)[1..] == es[1..] + fs;
    }
  }

  /** What is in a buffer when a flush tick starts has left by the end of the next tick, whatever
      comes between. */
  lemma GoneByNextTick(b: Buffer, taken: nat, es: seq<Event>, taken': nat, burst: nat)
    requires forall e :: e in es ==> e.PutIn?
    ensures All(b) <= Gone(Run(b, [TickOver(taken)] + es + [TickOver(taken')], burst).left)
  {
    var b1 := Tick(b, taken);
    var b2 := Run(b1, es, burst);
    RunOne(b, [TickOver(taken)] + es, TickOver(taken'), burst);
    RunSplit(b, [TickOver(taken)], es, burst);
    assert Run(b, [TickOver(taken)], burst) == b1;
    StepKeeps(b, TickOver(taken), burst);
    FlagStays(b1, es, burst);
    RunKeeps(b1, es, burst);
    LeaveKeeps(b2, taken', true);
    StepAdds(b2, TickOver(taken'), burst);
    assert All(b1) == All(b);
    if b2.flagged && b2.pending == [] {
      assert All(b2) == Gone(b2.left);
    }
  }

  /** One tick is enough exactly when the buffer was flagged, or had nothing in it. */
  lemma GoneByThisTick(b: Buffer, taken: nat)
    ensures Tick(b, taken).pending == [] <==> b.flagged || b.pending == []
  {
  }

  // ---------- The main loops ----------

  /** What one round of a main loop puts into a buffer, and what its flush would get sent. */
  datatype Round = Round(taken: nat, puts: seq<Event>)

  predicate PutsOnly(rounds: seq<Round>) {
    forall r, e :: r in rounds && e in r.puts ==> e.PutIn?
  }

  /** The events of some rounds: a tick whenever the counter i has reached the period, then the
      round's packets, and the counter goes on. */
  function EventsOf(rounds: seq<Round>, i: nat, period: nat): seq<Event> {
    if rounds == [] then []
    else if i == period then [TickOver(rounds[0].taken)] + rounds[0].puts + EventsOf(rounds[1..], 1, period)
    else rounds[0].puts + EventsOf(rounds[1..], i + 1, period)
  }

  /** Before the counter reaches the period there is no tick. */
  lemma {:induction false} NoTick(rounds: seq<Round>, i: nat, period: nat)
    requires PutsOnly(rounds) && i + |rounds| <= period
    ensures forall e :: e in EventsOf(rounds, i, period) ==> e.PutIn?
  {
    if rounds != [] {
      assert rounds[0] in rounds && forall r :: r in rounds[1..] ==> r in rounds;
      NoTick(rounds[1..], i + 1, period);
    }
  }

  lemma {:induction false} EventsSplit(rounds: seq<Round>, k: nat, i: nat, period: nat)
    requires k <= |rounds| && i + k <= period
    ensures EventsOf(rounds, i, period) == EventsOf(rounds[..k], i, period) + EventsOf(rounds[k..], i + k, period)
    decreases k
  {
    if k == 0 {
      assert rounds[..0] == [] && rounds[0..] == rounds;
    } else {
      EventsSplit(rounds[1..], k - 1, i + 1, period);
      assert rounds[..k][1..] == rounds[1..][..k - 1] && rounds[1..][k - 1..] == rounds[k..];
    }
  }

  lemma EventsTick(rounds: seq<Round>, period: nat)
    requires rounds != [] && period > 0
    ensures EventsOf(rounds, period, period) == [TickOver(rounds[0].taken)] + EventsOf(rounds, 0, period)
  {
  }

  /** Among more than two periods of rounds there are two ticks with only packets between. */
  lemma TwoTicks(rounds: seq<Round>, i: nat, period: nat)
    returns (a: seq<Event>, x: nat, puts: seq<Event>, y: nat, z: seq<Event>)
    requires PutsOnly(rounds) && 0 < period && i <= period && |rounds| > 2 * period
    ensures EventsOf(rounds, i, period) == a + ([TickOver(x)] + puts + [TickOver(y)]) + z
    ensures forall e :: e in puts ==> e.PutIn?
  {
    hide EventsOf;
    var k := period - i;
    var rest := rounds[k..];
    var last := rest[period..];
    EventsSplit(rounds, k, i, period);
    EventsTick(rest, period);
    EventsSplit(rest, period, 0, period);
    EventsTick(last, period);
    assert PutsOnly(rest[..period]) by { assert forall r :: r in rest[..period] ==> r in rounds; }
    NoTick(rest[..period], 0, period);
    a, puts, z := EventsOf(rounds[..k], i, period), EventsOf(rest[..period], 0, period), EventsOf(last, 0, period);
    x, y := rest[0].taken, last[0].taken;
  }

  /** Whatever is in a buffer has left it 2 * period + 1 rounds of the main loop later, wherever
      the counter stood, whatever came since and however much the ring or the NIC took. */
  lemma GoneInTwoPeriods(b: Buffer, rounds: seq<Round>, i: nat, period: nat, burst: nat)
    requires PutsOnly(rounds) && 0 < period && i <= period && |rounds| > 2 * period
    ensures All(b) <= Gone(Run(b, EventsOf(rounds, i, period), burst).left)
  {
    hide EventsOf, Run, All, Gone, Given;
    var a, x, puts, y, z := TwoTicks(rounds, i, period);
    var ticks := [TickOver(x)] + puts + [TickOver(y)];
    var b1 := Run(b, a, burst);
    RunSplit(b, a + ticks, z, burst);
    RunSplit(b, a, ticks, burst);
    RunKeeps(b, a, burst);
    GoneByNextTick(b1, x, puts, y, burst);
    GoneGrows(Run(b1, ticks, burst), z, burst);
  }

  // ---------- The buffers in memory ----------

  const ARRAY_SIZE := 512

  /** rte_ring_sp_enqueue_bulk takes all n objects when the ring has room for them, and none when
      it has not. */
  method EnqueueBulk(n: nat, room: nat) returns (ret: nat)
    ensures n <= room ==> ret == n
    ensures n > room ==> ret == 0
  {
    ret := if n <= room then n else 0;
  }

  const EMPTY := Buffer([], false, [])

  /** How many packets wait when an event happens. */
  function Waiting(b: Buffer, e: Event): nat {
    |b.pending| + if e.PutIn? then |e.ms| else 0
  }

  /** What is taken of n packets: by a ring all or none, by a NIC as many as there is room for. */
  function Taken(toRing: bool, n: nat, room: nat): nat {
    if n <= room then n else if toRing then 0 else room
  }

  /** Of what waited at each event of slot i, the ring or NIC takes what it has room for. */
  ghost predicate Answered(es: seq<Event>, i: nat, room: (nat, nat) -> nat, toRing: bool, burst: nat) {
    forall k :: 0 <= k < |es| ==> es[k].taken == Taken(toRing, Waiting(Run(EMPTY, es[..k], burst), es[k]), room(i, k))
  }

  lemma AnsweredMore(es: seq<Event>, e: Event, i: nat, room: (nat, nat) -> nat, toRing: bool, burst: nat)
    requires Answered(es, i, room, toRing, burst)
    requires e.taken == Taken(toRing, Waiting(Run(EMPTY, es, burst), e), room(i, |es|))
    ensures Answered(es + [e], i, room, toRing, burst)
    ensures Run(EMPTY, es + [e], burst) == Step(Run(EMPTY, es, burst), e, burst)
  {
    RunOne(EMPTY, es, e, burst);
    hide Taken, Waiting, Run;
    var fs := es + [e];
    forall k | 0 <= k < |fs|
      ensures fs[k].taken == Taken(toRing, Waiting(Run(EMPTY, fs[..k], burst), fs[k]), room(i, k))
    {
      assert fs[..k] == es[..k];
      if k == |es| { assert es[..k] == es; }
    }
  }

  /** The mbuf_out and mbuf_out_flush arrays of an lcore, towards rings or towards NICs.  events
      records what has happened to each slot, and Buf is the buffer that it amounts to; room(i, k)
      is how many packets the ring or NIC behind slot i has room for at the slot's k-th event. */
  class OutBuffers {
    const slots: nat
    const burst: nat
    const toRing: bool
    const room: (nat, nat) -> nat
    const mbufs: array2<Packet>
    const nMbufs: array<nat>
    const flush: array<bool>
    var events: seq<seq<Event>>

    ghost function Buf(i: nat): Buffer
      requires i < |events|
      reads this
    {
      Run(EMPTY, events[i], burst)
    }

    /** The packets at the start of slot i's array. */
    ghost function Row(i: nat, n: nat): seq<Packet>
      requires i < mbufs.Length0 && n <= mbufs.Length1
      reads mbufs
    {
      seq(n, k requires 0 <= k < n reads mbufs => mbufs[i, k])
    }

    ghost predicate SlotOk(i: nat)
      requires i < mbufs.Length0 && i < nMbufs.Length && i < flush.Length && i < |events|
      reads this, mbufs, nMbufs, flush
    {
      && nMbufs[i] < burst && nMbufs[i] <= mbufs.Length1
      && Row(i, nMbufs[i]) == Buf(i).pending && flush[i] == Buf(i).flagged
      && Answered(events[i], i, room, toRing, burst)
    }

    ghost predicate Valid()
      reads this, mbufs, nMbufs, flush
    {
      && mbufs.Length0 == nMbufs.Length == flush.Length == |events| == slots
      && mbufs.Length1 == ARRAY_SIZE && 0 < burst <= ARRAY_SIZE
      && forall i :: 0 <= i < slots ==> SlotOk(i)
    }

    /** Slot i has seen one more event. */
    ghost predicate Happened(was: seq<seq<Event>>, i: nat, e: Event)
      requires i < |was|
      reads this
    {
      events == was[i := was[i] + [e]]
    }

    constructor (slots: nat, burst: nat, toRing: bool, room: (nat, nat) -> nat, none: Packet)
      requires 0 < burst <= ARRAY_SIZE
      ensures Valid() && this.slots == slots && this.burst == burst && this.toRing == toRing && this.room == room
      ensures fresh(mbufs) && fresh(nMbufs) && fresh(flush)
      ensures forall i :: 0 <= i < slots ==> events[i] == []
    {
      this.slots, this.burst, this.toRing, this.room := slots, burst, toRing, room;
      mbufs := new Packet[slots, ARRAY_SIZE]((i, k) => none);
      nMbufs := new nat[slots](i => 0);
      flush := new bool[slots](i => false);
      events := seq(slots, i => []);
    }

    /** Free the packets of a slot from one position up to another. */
    method FreeRange(i: nat, from: nat, to: nat) returns (freed: seq<Packet>)
      requires i < mbufs.Length0 && from <= to <= mbufs.Length1
      ensures freed == Row(i, to)[from..]
    {
      freed := [];
      var k := from;
      while k < to
        invariant from <= k <= to && freed == Row(i, k)[from..]
      {
        assert Row(i, k + 1) == Row(i, k) + [mbufs[i, k]];
        freed := freed + [mbufs[i, k]];
        k := k + 1;
      }
    }

    /** app_lcore_io_rx_buffer_to_send, which app_lcore_worker repeats for its ports. */
    method BufferToSend(i: nat, mbuf: Packet) returns (ghost taken: nat, freed: seq<Packet>)
      requires Valid() && i < slots && toRing
      modifies this`events, mbufs, nMbufs, flush
      ensures Valid() && Happened(old(events), i, PutIn([mbuf], taken))
      ensures var was, ms := old(Buf(i)), old(Buf(i)).pending + [mbuf];
              if |ms| < burst then
                freed == [] && Buf(i) == was.(pending := ms)
              else if burst <= room(i, |old(events)[i]|) then
                freed == [] && Buf(i) == Buffer([], false, was.left + [Batch(ms, [])])
              else
                freed == ms && Buf(i) == Buffer([], false, was.left + [Batch([], ms)])
    {
      hide Run, Answered;
      assert SlotOk(i);
      var pos, k := nMbufs[i], |events[i]|;
      ghost var ms := Buf(i).pending + [mbuf];
      mbufs[i, pos] := mbuf;
      pos, freed := pos + 1, [];
      assert Row(i, pos) == ms;
      if pos < burst {
        nMbufs[i] := pos;
      } else {
        var ret := EnqueueBulk(burst, room(i, k));
        if ret == 0 {
          freed := FreeRange(i, 0, burst);
        }
        nMbufs[i] := 0;
        flush[i] := false;
      }
      var e := PutIn([mbuf], Taken(toRing, pos, room(i, k)));
      taken := e.taken;
      AnsweredMore(events[i], e, i, room, toRing, burst);
      events := events[i := events[i] + [e]];
      assert ms[..|ms|] == ms && ms[|ms|..] == [];
      OthersOk(i);
    }

    /** The slots other than i are as they were. */
    twostate lemma OthersOk(i: nat)
      requires old(Valid()) && i < slots && |events| == slots
      requires forall j :: 0 <= j < slots && j != i ==>
                 events[j] == old(events)[j] && nMbufs[j] == old(nMbufs[j]) && flush[j] == old(flush[j])
      requires forall j, k :: 0 <= j < slots && j != i && 0 <= k < ARRAY_SIZE ==> mbufs[j, k] == old(mbufs[j, k])
      ensures forall j :: 0 <= j < slots && j != i ==> SlotOk(j)
    {
      forall j | 0 <= j < slots && j != i ensures SlotOk(j) {
        assert old(SlotOk(j));
        assert Row(j, nMbufs[j]) == old(Row(j, nMbufs[j]));
      }
    }

    /** The body of app_lcore_io_rx_flush and of app_lcore_worker_flush for one buffer. */
    method FlushToRing(i: nat) returns (ghost taken: nat, freed: seq<Packet>)
      requires Valid() && i < slots && toRing
      modifies this`events, nMbufs, flush
      ensures Valid() && Happened(old(events), i, TickOver(taken))
      ensures var was := old(Buf(i));
              if !was.flagged || was.pending == [] then
                freed == [] && Buf(i) == was.(flagged := true)
              else if |was.pending| <= room(i, |old(events)[i]|) then
                freed == [] && Buf(i) == Buffer([], true, was.left + [Batch(was.pending, [])])
              else
                freed == was.pending && Buf(i) == Buffer([], true, was.left + [Batch([], was.pending)])
    {
      hide Run, Answered;
      assert SlotOk(i);
      var n, k := nMbufs[i], |events[i]|;
      ghost var ms := Buf(i).pending;
      freed := [];
      if !flush[i] || n == 0 {
        flush[i] := true;
      } else {
        var ret := EnqueueBulk(n, room(i, k));
        if ret == 0 {
          freed := FreeRange(i, 0, n);
        }
        nMbufs[i] := 0;
        flush[i] := true;
      }
      var e := TickOver(Taken(toRing, n, room(i, k)));
      taken := e.taken;
      AnsweredMore(events[i], e, i, room, toRing, burst);
      events := events[i := events[i] + [e]];
      assert ms[..|ms|] == ms && ms[|ms|..] == [];
      OthersOk(i);
    }

    /** The rest of app_lcore_io_tx once a bulk of packets has come from the ring: they go behind
        the ones that wait, and a full burst goes to the NIC. */
    method TakeAndSend(i: nat, bulk: seq<Packet>) returns (ghost taken: nat, freed: seq<Packet>)
      requires Valid() && i < slots && !toRing && burst - 1 + |bulk| <= ARRAY_SIZE
      modifies this`events, mbufs, nMbufs, flush
      ensures Valid() && Happened(old(events), i, PutIn(bulk, taken))
      ensures var was, ms := old(Buf(i)), old(Buf(i)).pending + bulk;
              var space := room(i, |old(events)[i]|);
              if |ms| < burst then
                freed == [] && Buf(i) == was.(pending := ms)
              else if |ms| <= space then
                freed == [] && Buf(i) == Buffer([], false, was.left + [Batch(ms, [])])
              else
                freed == ms[space..] && Buf(i) == Buffer([], false, was.left + [Batch(ms[..space], ms[space..])])
    {
      hide Run, Answered;
      assert SlotOk(i);
      ghost var ms := Buf(i).pending + bulk;
      var k := |events[i]|;
      var n := Store(i, nMbufs[i], bulk);
      freed := [];
      if n < burst {
        nMbufs[i] := n;
      } else {
        var sent := TxBurst(n, room(i, k));
        if sent < n {
          freed := FreeRange(i, sent, n);
        }
        nMbufs[i] := 0;
        flush[i] := false;
      }
      var e := PutIn(bulk, Taken(toRing, n, room(i, k)));
      taken := e.taken;
      AnsweredMore(events[i], e, i, room, toRing, burst);
      events := events[i := events[i] + [e]];
      assert ms[..|ms|] == ms && ms[|ms|..] == [];
      OthersOk(i);
    }

    /** The copy a dequeue makes into slot i from position n on. */
    method Store(i: nat, n: nat, bulk: seq<Packet>) returns (end: nat)
      requires i < mbufs.Length0 && n + |bulk| <= mbufs.Length1
      modifies mbufs
      ensures end == n + |bulk| && Row(i, end) == old(Row(i, n)) + bulk
      ensures forall j, k :: 0 <= j < mbufs.Length0 && j != i && 0 <= k < mbufs.Length1 ==>
                mbufs[j, k] == old(mbufs[j, k])
    {
      end := n;
      while end < n + |bulk|
        invariant n <= end <= n + |bulk| && Row(i, end) == old(Row(i, n)) + bulk[..end - n]
        invariant forall j, k :: 0 <= j < mbufs.Length0 && j != i && 0 <= k < mbufs.Length1 ==>
                    mbufs[j, k] == old(mbufs[j, k])
      {
        ghost var was := Row(i, end);
        mbufs[i, end] := bulk[end - n];
        assert Row(i, end) == was;
        assert Row(i, end + 1) == Row(i, end) + [bulk[end - n]];
        end := end + 1;
      }
    }

    /** The body of app_lcore_io_tx_flush for one buffer. */
    method FlushToNic(i: nat) returns (ghost taken: nat, freed: seq<Packet>)
      requires Valid() && i < slots && !toRing
      modifies this`events, nMbufs, flush
      ensures Valid() && Happened(old(events), i, TickOver(taken))
      ensures var was, space := old(Buf(i)), room(i, |old(events)[i]|);
              if !was.flagged || was.pending == [] then
                freed == [] && Buf(i) == was.(flagged := true)
              else if |was.pending| <= space then
                freed == [] && Buf(i) == Buffer([], true, was.left + [Batch(was.pending, [])])
              else
                && freed == was.pending[space..]
                && Buf(i) == Buffer([], true, was.left + [Batch(was.pending[..space], was.pending[space..])])
    {
      hide Run, Answered;
      assert SlotOk(i);
      var n, k := nMbufs[i], |events[i]|;
      ghost var ms := Buf(i).pending;
      freed := [];
      if !flush[i] || n == 0 {
        flush[i] := true;
      } else {
        var sent := TxBurst(n, room(i, k));
        if sent < n {
          freed := FreeRange(i, sent, n);
        }
        nMbufs[i] := 0;
        flush[i] := true;
      }
      var e := TickOver(Taken(toRing, n, room(i, k)));
      taken := e.taken;
      AnsweredMore(events[i], e, i, room, toRing, burst);
      events := events[i := events[i] + [e]];
      assert ms[..|ms|] == ms && ms[|ms|..] == [];
      OthersOk(i);
    }
  }
}
