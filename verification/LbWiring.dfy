/** The rings of the load balancer (examples/load_balancer/init.cr): who produces into which ring,
    who consumes from it, and when no packet is sent to a port that has none. */
module LbWiring {
  import opened Ascending
  import opened LbConfig
  import opened Limits

  /** A ring, named by what it was created for. */
  datatype Ring = Null | RxRing(io: nat, worker: nat) | TxRing(worker: nat, port: nat)

  // ---------- The rings ----------

  /** The rings from I/O lcore io to the workers below n. */
  ghost function FromIo(c: Config, io: nat, n: nat): (s: seq<Ring>)
    ensures |s| == |Workers(c, n)|
  {
    var ws := Workers(c, n);
    seq(|ws|, i requires 0 <= i < |ws| => RxRing(io, ws[i]))
  }

  /** The rings to a worker from the receiving I/O lcores below n. */
  ghost function ToWorker(c: Config, w: nat, n: nat): (s: seq<Ring>)
    ensures |s| == |RxIos(c, n)|
  {
    var ios := RxIos(c, n);
    seq(|ios|, i requires 0 <= i < |ios| => RxRing(ios[i], w))
  }

  lemma NextWorker(c: Config, io: nat, n: nat)
    requires n < |c.types|
    ensures FromIo(c, io, n + 1) == FromIo(c, io, n) + if c.types[n].Worker? then [RxRing(io, n)] else []
  {
    NextLcore(c, n);
  }

  lemma NextIo(c: Config, w: nat, n: nat)
    requires n < |c.types|
    ensures ToWorker(c, w, n + 1) == ToWorker(c, w, n) + if IsRxIo(c, n) then [RxRing(n, w)] else []
  {
    NextLcore(c, n);
  }

  /** What lcore l sends into once ring (io, w) is the next to be created. */
  ghost function RxSide(c: Config, l: nat, io: nat, w: nat): seq<Ring>
    requires Sized(c) && l < MAX_LCORES && io <= MAX_LCORES && w <= MAX_LCORES
  {
    if !IsRxIo(c, l) || l > io then [] else FromIo(c, l, if l < io then MAX_LCORES else w)
  }

  /** What lcore l receives from at the same moment. */
  ghost function WorkerSide(c: Config, l: nat, io: nat, w: nat): seq<Ring>
    requires Sized(c) && l < MAX_LCORES && io <= MAX_LCORES && w <= MAX_LCORES && (w > 0 ==> io < MAX_LCORES)
  {
    if c.types[l].Worker? then ToWorker(c, l, if l < w then io + 1 else io) else []
  }

  lemma NextRing(c: Config, l: nat, io: nat, w: nat)
    requires Sized(c) && l < MAX_LCORES && io < MAX_LCORES && w < MAX_LCORES && IsRxIo(c, io)
    ensures RxSide(c, l, io, w + 1)
         == RxSide(c, l, io, w) + if l == io && c.types[w].Worker? then [RxRing(io, w)] else []
    ensures WorkerSide(c, l, io, w + 1)
         == WorkerSide(c, l, io, w) + if l == w && c.types[w].Worker? then [RxRing(io, w)] else []
  {
    NextWorker(c, io, w);
    NextIo(c, w, io);
  }

  lemma NextRow(c: Config, l: nat, io: nat)
    requires Sized(c) && l < MAX_LCORES && io < MAX_LCORES
    ensures RxSide(c, l, io + 1, 0) == RxSide(c, l, io, if IsRxIo(c, io) then MAX_LCORES else 0)
    ensures WorkerSide(c, l, io + 1, 0) == WorkerSide(c, l, io, if IsRxIo(c, io) then MAX_LCORES else 0)
  {
    NextIo(c, l, io);
    assert FromIo(c, l, 0) == [];
  }

  predicate Before(x: nat, q: nat, l: nat, p: nat) { x < l || (x == l && q < p) }

  /** The ring worker lcore x has for port q once the ring of (l, p) is the next to be created. */
  function OutSide(c: Config, x: nat, q: nat, l: nat, p: nat): Ring
    requires Sized(c) && x < MAX_LCORES && q < MAX_PORTS
  {
    if Before(x, q, l, p) && c.types[x].Worker? && c.txMask[q] then TxRing(x, q) else Null
  }

  /** The ring I/O lcore io polls for port q and worker id at the same moment. */
  ghost function PollSide(c: Config, io: nat, q: nat, id: nat, l: nat, p: nat): Ring
    requires Sized(c) && q < MAX_PORTS
  {
    var ws := Workers(c, MAX_LCORES);
    if id < |ws| && Before(ws[id], q, l, p) && c.txMask[q] && Owns(c, io, q) then TxRing(ws[id], q) else Null
  }

  lemma NextTx(c: Config, l: nat, p: nat, io: nat, q: nat, id: nat)
    requires Sized(c) && l < MAX_LCORES && p < MAX_PORTS && c.types[l].Worker? && c.txMask[p] && q < MAX_PORTS
    ensures PollSide(c, io, q, id, l, p + 1) ==
              if q == p && id == |Workers(c, l)| && Owns(c, io, p) then TxRing(l, p) else PollSide(c, io, q, id, l, p)
  {
    WorkersAre(c, MAX_LCORES);
    WorkerAt(c, l, MAX_LCORES);
  }

  lemma SkipTx(c: Config, l: nat, p: nat, io: nat, q: nat, id: nat)
    requires Sized(c) && l < MAX_LCORES && p < MAX_PORTS && q < MAX_PORTS && !c.txMask[p]
    ensures PollSide(c, io, q, id, l, p + 1) == PollSide(c, io, q, id, l, p)
  {
  }

  lemma NextTxRow(c: Config, l: nat, io: nat, q: nat, id: nat)
    requires Sized(c) && l < MAX_LCORES && q < MAX_PORTS
    ensures PollSide(c, io, q, id, l + 1, 0) == PollSide(c, io, q, id, l, if c.types[l].Worker? then MAX_PORTS else 0)
  {
    WorkersAre(c, MAX_LCORES);
  }

  /** Every port with TX has an I/O lcore that lists it. */
  ghost predicate Polled(c: Config)
    requires Sized(c)
  {
    forall p :: 0 <= p < MAX_PORTS && c.txMask[p] ==> exists l :: 0 <= l < MAX_LCORES && Lists(c, l, p)
  }

  /** The port has TX, and lcore l is the one that polls it. */
  predicate OwnsTx(c: Config, l: nat, port: nat)
    requires Sized(c)
  {
    port < MAX_PORTS && c.txMask[port] && Owns(c, l, port)
  }

  /** So it is with the first n ports lcore l lists. */
  ghost predicate OwnedUpto(c: Config, l: nat, n: nat)
    requires Sized(c) && l < MAX_LCORES && n <= |c.nicPorts[l]|
  {
    forall k :: 0 <= k < n ==> OwnsTx(c, l, c.nicPorts[l][k])
  }

  /** When all rings are created, an I/O lcore finds one for a port and a worker id exactly if the
      port has TX and the lcore is the one that polls it. */
  lemma PolledOrNot(c: Config, io: nat, q: nat, id: nat)
    requires Sized(c) && q < MAX_PORTS && id < |Workers(c, MAX_LCORES)|
    ensures PollSide(c, io, q, id, MAX_LCORES, 0).Null? <==> !OwnsTx(c, io, q)
  {
    WorkersAre(c, MAX_LCORES);
  }

  /** No I/O lcore lists a port that has no TX or that an earlier one lists. */
  ghost predicate OneOwner(c: Config)
    requires Sized(c)
  {
    forall l :: 0 <= l < MAX_LCORES && c.types[l].Io? ==> OwnedUpto(c, l, |c.nicPorts[l]|)
  }

  /** The workers below n have their ids. */
  ghost predicate IdsUpto(c: Config, ids: seq<nat>, n: nat) {
    n <= |c.types| == |ids| && forall k :: 0 <= k < n ==> (c.types[k].Worker? ==> ids[k] == |Workers(c, k)|)
  }

  lemma IdsStart(c: Config, ids: seq<nat>)
    requires |ids| == |c.types|
    ensures IdsUpto(c, ids, 0)
  {
  }

  lemma IdsNext(c: Config, ids: seq<nat>, l: nat)
    requires IdsUpto(c, ids, l) && l < |ids|
    ensures IdsUpto(c, if c.types[l].Worker? then ids[l := |Workers(c, l)|] else ids, l + 1)
  {
  }

  lemma IdsMean(c: Config, ids: seq<nat>)
    requires |ids| == |c.types| && IdsUpto(c, ids, |ids|)
    ensures forall k :: 0 <= k < |ids| ==> (c.types[k].Worker? ==> ids[k] == |Workers(c, k)|)
  {
  }

  /** Receiving I/O lcores send to every worker, in order, workers receive from every one of them,
      and nobody else has a ring. */
  ghost predicate RxDone(c: Config, sent: seq<seq<Ring>>, taken: seq<seq<Ring>>)
    requires Sized(c)
  {
    && |sent| == |taken| == MAX_LCORES
    && (forall l :: 0 <= l < MAX_LCORES ==> sent[l] == if IsRxIo(c, l) then FromIo(c, l, MAX_LCORES) else [])
    && (forall l :: 0 <= l < MAX_LCORES ==> taken[l] == if c.types[l].Worker? then ToWorker(c, l, MAX_LCORES) else [])
  }

  /** What app_init builds: per lcore its worker id, the rings it receives from or sends into, and
      per TX port the ring each worker sends into and each I/O lcore polls. */
  class App {
    const c: Config
    const workerId: array<nat>
    const rxRings: array<seq<Ring>>
    const ringsIn: array<seq<Ring>>
    const ringsOut: array2<Ring>
    const txRings: array3<Ring>

    ghost predicate Valid() {
      && Sized(c)
      && workerId.Length == rxRings.Length == ringsIn.Length == MAX_LCORES && rxRings != ringsIn
      && ringsOut.Length0 == MAX_LCORES && ringsOut.Length1 == MAX_PORTS
      && txRings.Length0 == MAX_LCORES && txRings.Length1 == MAX_PORTS && txRings.Length2 == MAX_LCORES
    }

    constructor (c: Config)
      requires Sized(c)
      ensures Valid() && this.c == c
      ensures fresh(workerId) && fresh(rxRings) && fresh(ringsIn) && fresh(ringsOut) && fresh(txRings)
      ensures forall l :: 0 <= l < MAX_LCORES ==> rxRings[l] == [] && ringsIn[l] == []
      ensures forall l, p :: 0 <= l < MAX_LCORES && 0 <= p < MAX_PORTS ==> ringsOut[l, p] == Null
      ensures forall l, p, w :: 0 <= l < MAX_LCORES && 0 <= p < MAX_PORTS && 0 <= w < MAX_LCORES ==>
                txRings[l, p, w] == Null
    {
      this.c := c;
      workerId := new nat[MAX_LCORES](i => 0);
      rxRings := new seq<Ring>[MAX_LCORES](i => []);
      ringsIn := new seq<Ring>[MAX_LCORES](i => []);
      ringsOut := new Ring[MAX_LCORES, MAX_PORTS]((i, j) => Null);
      txRings := new Ring[MAX_LCORES, MAX_PORTS, MAX_LCORES]((i, j, k) => Null);
    }

    /** The id of a worker is the number of workers before it. */
    ghost predicate IdOk(l: nat)
      requires Valid() && l < MAX_LCORES
      reads workerId
    {
      c.types[l].Worker? ==> workerId[l] == |Workers(c, l)|
    }

    method AssignId(l: nat, id: nat)
      requires Valid() && l < MAX_LCORES
      modifies workerId
      ensures workerId[..] == old(workerId[..])[l := id]
    {
      hide Sized;
      workerId[l] := id;
    }

    /** app_assign_worker_ids: the id of a worker is its position among the workers. */
    method AssignWorkerIds()
      requires Valid()
      modifies workerId
      ensures forall l :: 0 <= l < MAX_LCORES ==> IdOk(l)
    {
      var id: nat := 0;
      NextLcore(c, 0);
      assert |c.types| == |c.rxQueues| == MAX_LCORES;
      hide Workers, RxIos, WorkerLcore, RxIoLcore, Below, Sized, IdsUpto;
      IdsStart(c, workerId[..]);
      for l: nat := 0 to MAX_LCORES
        invariant id == |Workers(c, l)| && IdsUpto(c, workerId[..], l)
      {
        NextLcore(c, l);
        ghost var ids: seq<nat> := workerId[..];
        IdsNext(c, ids, l);
        if c.types[l].Worker? {
          AssignId(l, id);
          id := id + 1;
        }
      }
      IdsMean(c, workerId[..]);
    }

    /** The receiving side as wired when ring (io, w) is the next to be created. */
    ghost predicate RxWired(io: nat, w: nat)
      requires Valid() && io <= MAX_LCORES && w <= MAX_LCORES && (w > 0 ==> io < MAX_LCORES)
      reads rxRings, ringsIn
    {
      forall l :: 0 <= l < MAX_LCORES ==> rxRings[l] == RxSide(c, l, io, w) && ringsIn[l] == WorkerSide(c, l, io, w)
    }

    /** app_init_rings_rx: it wires every receiving lcore to every worker, and neither of its two
        checks ever fails. */
    method InitRingsRx() returns (r: Result)
      requires Valid() && (forall l :: 0 <= l < MAX_LCORES ==> rxRings[l] == ringsIn[l] == [])
      modifies rxRings, ringsIn
      ensures r.Ok?
      ensures RxDone(c, rxRings[..], ringsIn[..])
    {
      r := WireRx();
      for l := 0 to MAX_LCORES
        invariant RxWired(MAX_LCORES, 0)
      {
        if c.types[l].Io? && |c.rxQueues[l]| != 0 {
          var counted, n := CountWorkers(c);
          if counted.Fail? { return counted; }
          if |rxRings[l]| != n { return Fail("I/O RX rings"); }
        }
      }
      for l := 0 to MAX_LCORES
        invariant RxWired(MAX_LCORES, 0)
      {
        if c.types[l].Worker? {
          var n := CountRxIos(c);
          if |ringsIn[l]| != n { return Fail("worker input rings"); }
        }
      }
    }

    /** The loop over workers in app_init_rings_rx. */
    method RingsFromIo(io: nat)
      requires Valid() && io < MAX_LCORES && IsRxIo(c, io) && RxWired(io, 0)
      modifies rxRings, ringsIn
      ensures RxWired(io, MAX_LCORES)
    {
      hide RxSide, WorkerSide, IsRxIo;
      for w := 0 to MAX_LCORES
        invariant RxWired(io, w)
      {
        ghost var sent, taken := rxRings[..], ringsIn[..];
        if c.types[w].Worker? {
          var ring := RxRing(io, w);
          rxRings[io] := rxRings[io] + [ring];
          ringsIn[w] := ringsIn[w] + [ring];
        }
        forall l | 0 <= l < MAX_LCORES
          ensures rxRings[l] == RxSide(c, l, io, w + 1) && ringsIn[l] == WorkerSide(c, l, io, w + 1)
        {
          assert sent[l] == RxSide(c, l, io, w) && taken[l] == WorkerSide(c, l, io, w);
          NextRing(c, l, io, w);
        }
      }
    }

    /** The nested loops of app_init_rings_rx that create the rings. */
    method WireRx() returns (r: Result)
      requires Valid() && (forall l :: 0 <= l < MAX_LCORES ==> rxRings[l] == ringsIn[l] == [])
      modifies rxRings, ringsIn
      ensures RxWired(MAX_LCORES, 0) && r.Ok?
    {
      forall l | 0 <= l < MAX_LCORES ensures RxSide(c, l, 0, 0) == WorkerSide(c, l, 0, 0) == [] {
        assert FromIo(c, l, 0) == [] == ToWorker(c, l, 0);
      }
      hide RxSide, WorkerSide;
      for io := 0 to MAX_LCORES
        invariant RxWired(io, 0)
      {
        if c.types[io].Io? && |c.rxQueues[io]| != 0 {
          RingsFromIo(io);
        }
        forall l | 0 <= l < MAX_LCORES
          ensures rxRings[l] == RxSide(c, l, io + 1, 0) && ringsIn[l] == WorkerSide(c, l, io + 1, 0)
        {
          NextRow(c, l, io);
        }
      }
      r := Ok;
    }

    /** The transmitting side as wired when the ring of (l, p) is the next to be created. */
    ghost predicate TxWired(l: nat, p: nat)
      requires Valid()
      reads ringsOut, txRings
    {
      && (forall x, q :: 0 <= x < MAX_LCORES && 0 <= q < MAX_PORTS ==> ringsOut[x, q] == OutSide(c, x, q, l, p))
      && PollWired(l, p)
    }

    ghost predicate PollWired(l: nat, p: nat)
      requires Valid()
      reads txRings
    {
      forall io, q, id :: 0 <= io < MAX_LCORES && 0 <= q < MAX_PORTS && 0 <= id < MAX_LCORES ==>
        txRings[io, q, id] == PollSide(c, io, q, id, l, p)
    }

    /** One ring of app_init_rings_tx: from worker lcore l to the lcore that polls port p. */
    method RingForTx(l: nat, p: nat) returns (r: Result)
      requires Valid() && l < MAX_LCORES && p < MAX_PORTS && TxWired(l, p)
      requires c.types[l].Worker? && c.txMask[p] && IdOk(l)
      modifies ringsOut, txRings
      ensures r.Ok? ==> TxWired(l, p + 1)
      ensures r.Ok? <==> exists k :: 0 <= k < MAX_LCORES && Lists(c, k, p)
    {
      var found, io := LcoreForNicTx(c, p);
      if !found { return Fail("no I/O core to handle TX"); }
      Wire(l, p, io);
      r := Ok;
    }

    /** The ring is stored for its producer and for its consumer. */
    method Wire(l: nat, p: nat, io: nat)
      requires Valid() && l < MAX_LCORES && p < MAX_PORTS && TxWired(l, p)
      requires c.types[l].Worker? && c.txMask[p] && IdOk(l) && Owns(c, io, p)
      modifies ringsOut, txRings
      ensures TxWired(l, p + 1)
    {
      WorkersFew(c, l);
      hide Workers, PollSide, Sized, Owns;
      ringsOut[l, p] := TxRing(l, p);
      WirePoll(l, p, io, workerId[l]);
    }

    /** The lcore that polls the port finds the ring under the worker's id. */
    method WirePoll(l: nat, p: nat, io: nat, id: nat)
      requires Valid() && l < MAX_LCORES && p < MAX_PORTS && PollWired(l, p)
      requires c.types[l].Worker? && c.txMask[p] && id == |Workers(c, l)| < MAX_LCORES && Owns(c, io, p)
      modifies txRings
      ensures PollWired(l, p + 1)
    {
      forall i | Owns(c, i, p) ensures i == io { OneFirst(c, i, io, p); }
      assert io < MAX_LCORES;
      hide Workers, PollSide, Sized, Owns;
      txRings[io, p, id] := TxRing(l, p);
      forall i, q, w | 0 <= i < MAX_LCORES && 0 <= q < MAX_PORTS && 0 <= w < MAX_LCORES
        ensures txRings[i, q, w] == PollSide(c, i, q, w, l, p + 1)
      {
        assert old(txRings[i, q, w]) == PollSide(c, i, q, w, l, p);
        NextTx(c, l, p, i, q, w);
      }
    }

    lemma SkipPort(l: nat, p: nat)
      requires Valid() && l < MAX_LCORES && p < MAX_PORTS && !c.txMask[p] && TxWired(l, p)
      ensures TxWired(l, p + 1)
    {
      forall i, q, id | 0 <= i < MAX_LCORES && 0 <= q < MAX_PORTS && 0 <= id < MAX_LCORES
        ensures txRings[i, q, id] == PollSide(c, i, q, id, l, p + 1)
      {
        SkipTx(c, l, p, i, q, id);
      }
    }

    lemma NextWorkerLcore(l: nat)
      requires Valid() && l < MAX_LCORES && TxWired(l, if c.types[l].Worker? then MAX_PORTS else 0)
      ensures TxWired(l + 1, 0)
    {
      forall i, q, id | 0 <= i < MAX_LCORES && 0 <= q < MAX_PORTS && 0 <= id < MAX_LCORES
        ensures txRings[i, q, id] == PollSide(c, i, q, id, l + 1, 0)
      {
        NextTxRow(c, l, i, q, id);
      }
    }

    /** The loop over ports in app_init_rings_tx. */
    method RingsForWorker(l: nat) returns (r: Result)
      requires Valid() && l < MAX_LCORES && TxWired(l, 0)
      requires c.types[l].Worker? && IdOk(l)
      modifies ringsOut, txRings
      ensures r.Ok? ==> TxWired(l, MAX_PORTS)
      ensures r.Ok? <==> Polled(c)
    {
      hide Workers, TxWired, Lists;
      for p := 0 to MAX_PORTS
        invariant TxWired(l, p)
        invariant forall q :: 0 <= q < p && c.txMask[q] ==> exists k :: 0 <= k < MAX_LCORES && Lists(c, k, q)
      {
        if c.txMask[p] {
          r := RingForTx(l, p);
          if r.Fail? { return; }
        } else {
          SkipPort(l, p);
        }
      }
      r := Ok;
    }

    /** The nested loops of app_init_rings_tx that create the rings. */
    method WireTx() returns (r: Result)
      requires Valid() && TxWired(0, 0)
      requires forall l :: 0 <= l < MAX_LCORES ==> IdOk(l)
      modifies ringsOut, txRings
      ensures r.Ok? ==> TxWired(MAX_LCORES, 0)
      ensures r.Ok? <==> Polled(c) || Workers(c, MAX_LCORES) == []
    {
      NextLcore(c, 0);
      hide Workers, TxWired, Polled;
      for l := 0 to MAX_LCORES
        invariant TxWired(l, 0)
        invariant Polled(c) || Workers(c, l) == []
      {
        NextLcore(c, l);
        if c.types[l].Worker? {
          var one := RingsForWorker(l);
          if one.Fail? {
            WorkerAt(c, l, MAX_LCORES);
            return one;
          }
        }
        NextWorkerLcore(l);
      }
      r := Ok;
    }

    /** app_init_rings_tx: it succeeds exactly when there are no workers, or every port with TX is
        polled by the only I/O lcore that lists it; and then each ring a worker sends into is the
        one that lcore polls for it. */
    method InitRingsTx() returns (r: Result)
      requires Valid() && TxWired(0, 0)
      requires forall l :: 0 <= l < MAX_LCORES ==> IdOk(l)
      modifies ringsOut, txRings
      ensures r.Ok? <==> Workers(c, MAX_LCORES) == [] || (Polled(c) && OneOwner(c))
      ensures r.Ok? ==> TxWired(MAX_LCORES, 0)
    {
      r := WireTx();
      if r.Fail? { return; }
      for l := 0 to MAX_LCORES
        invariant r.Ok? && TxWired(MAX_LCORES, 0)
        invariant Workers(c, MAX_LCORES) == []
               || forall k :: 0 <= k < l && c.types[k].Io? ==> OwnedUpto(c, k, |c.nicPorts[k]|)
      {
        if c.types[l].Io? && |c.nicPorts[l]| != 0 {
          r := CheckPolled(l);
          if r.Fail? {
            assert !OneOwner(c);
            return;
          }
        }
      }
      assert Workers(c, MAX_LCORES) == [] || OneOwner(c);
    }

    /** The check of one port of an I/O lcore: a ring for every worker id. */
    method CheckPort(l: nat, port: nat) returns (r: Result)
      requires Valid() && PollWired(MAX_LCORES, 0) && l < MAX_LCORES && port < MAX_PORTS
      ensures r.Ok? <==> Workers(c, MAX_LCORES) == [] || OwnsTx(c, l, port)
    {
      hide Workers, PollSide, OwnsTx, Sized;
      WorkersFew(c, MAX_LCORES);
      var counted, n := CountWorkers(c);
      var j := 0;
      while j < n
        invariant j <= n && (j > 0 ==> OwnsTx(c, l, port))
      {
        PolledOrNot(c, l, port, j);
        if txRings[l, port, j].Null? { return Fail("I/O TX rings"); }
        j := j + 1;
      }
      r := Ok;
    }

    /** The check of one I/O lcore that ends app_init_rings_tx. */
    method CheckPolled(l: nat) returns (r: Result)
      requires Valid() && PollWired(MAX_LCORES, 0) && l < MAX_LCORES && c.types[l].Io?
      ensures r.Ok? <==> Workers(c, MAX_LCORES) == [] || OwnedUpto(c, l, |c.nicPorts[l]|)
    {
      hide Workers, PollWired, OwnsTx;
      for i := 0 to |c.nicPorts[l]|
        invariant Workers(c, MAX_LCORES) == [] || OwnedUpto(c, l, i)
      {
        PortListed(c, l, i);
        r := CheckPort(l, c.nicPorts[l][i]);
        if r.Fail? { return; }
      }
      r := Ok;
    }
  }

  lemma PortListed(c: Config, l: nat, i: nat)
    requires Sized(c) && l < MAX_LCORES && i < |c.nicPorts[l]|
    ensures c.nicPorts[l][i] < MAX_PORTS
  {
    assert c.nicPorts[l][i] in c.nicPorts[l];
  }

  // ---------- What the wiring is for ----------

  /** Ring k of every receiving I/O lcore is an input ring of the worker whose id is k. */
  lemma RingOfWorker(c: Config, io: nat, l: nat)
    requires Sized(c) && io < MAX_LCORES && IsRxIo(c, io) && l < MAX_LCORES && c.types[l].Worker?
    ensures var id := |Workers(c, l)|;
            id < |FromIo(c, io, MAX_LCORES)| && FromIo(c, io, MAX_LCORES)[id] in ToWorker(c, l, MAX_LCORES)
  {
    WorkerAt(c, l, MAX_LCORES);
    RxIosAre(c, MAX_LCORES, io);
    var ios := RxIos(c, MAX_LCORES);
    var i :| 0 <= i < |ios| && ios[i] == io;
    assert ToWorker(c, l, MAX_LCORES)[i] == RxRing(io, l);
  }

  ghost predicate At(side: seq<seq<Ring>>, l: nat, i: nat, r: Ring) {
    l < |side| && i < |side[l]| && side[l][i] == r
  }

  ghost predicate Somewhere(side: seq<seq<Ring>>, r: Ring) { exists l: nat, i: nat :: At(side, l, i, r) }

  /** Once app_init_rings_rx is done: every ring is sent into by one lcore, at one place of its
      list, and received from by one lcore, at one place of its list, as the flags it was created
      with for a single producer and a single consumer say. */
  lemma RxRingsApart(c: Config, sent: seq<seq<Ring>>, taken: seq<seq<Ring>>)
    requires Sized(c) && RxDone(c, sent, taken)
    ensures forall r, l: nat, i: nat, l': nat, i': nat ::
              At(sent, l, i, r) && At(sent, l', i', r) ==> l == l' && i == i'
    ensures forall r, l: nat, i: nat, l': nat, i': nat ::
              At(taken, l, i, r) && At(taken, l', i', r) ==> l == l' && i == i'
    ensures forall r :: Somewhere(sent, r) <==> Somewhere(taken, r)
  {
    hide Sized;
    forall r, l: nat, i: nat, l': nat, i': nat | At(sent, l, i, r) && At(sent, l', i', r) ensures l == l' && i == i' {
      SentAt(c, sent, taken, l, i);
      SentAt(c, sent, taken, l', i');
    }
    forall r, l: nat, i: nat, l': nat, i': nat | At(taken, l, i, r) && At(taken, l', i', r) ensures l == l' && i == i' {
      TakenAt(c, sent, taken, l, i);
      TakenAt(c, sent, taken, l', i');
    }
    forall r ensures Somewhere(sent, r) <==> Somewhere(taken, r) {
      if l: nat, i: nat :| At(sent, l, i, r) {
        SentAt(c, sent, taken, l, i);
      }
      if l: nat, i: nat :| At(taken, l, i, r) {
        TakenAt(c, sent, taken, l, i);
      }
    }
  }

  /** A ring an lcore sends into carries that lcore, stands at the position of its worker, and is
      one that worker receives from. */
  lemma SentAt(c: Config, sent: seq<seq<Ring>>, taken: seq<seq<Ring>>, l: nat, i: nat)
    requires Sized(c) && RxDone(c, sent, taken) && l < MAX_LCORES && i < |sent[l]|
    ensures sent[l][i].RxRing? && sent[l][i].io == l && |Workers(c, sent[l][i].worker)| == i
    ensures At(taken, sent[l][i].worker, |RxIos(c, l)|, sent[l][i])
  {
    var w := Workers(c, MAX_LCORES)[i];
    WorkersAre(c, MAX_LCORES);
    BelowAt(l, MAX_LCORES, RxIoLcore(c));
    assert taken[w] == ToWorker(c, w, MAX_LCORES);
  }

  lemma TakenAt(c: Config, sent: seq<seq<Ring>>, taken: seq<seq<Ring>>, l: nat, i: nat)
    requires Sized(c) && RxDone(c, sent, taken) && l < MAX_LCORES && i < |taken[l]|
    ensures taken[l][i].RxRing? && taken[l][i].worker == l && |RxIos(c, taken[l][i].io)| == i
    ensures At(sent, taken[l][i].io, |Workers(c, l)|, taken[l][i])
  {
    var io := RxIos(c, MAX_LCORES)[i];
    BelowPositions(MAX_LCORES, RxIoLcore(c));
    WorkerAt(c, l, MAX_LCORES);
    assert sent[io] == FromIo(c, io, MAX_LCORES);
  }

  /** Once app_init_rings_tx is done: the ring that the owner of a port polls for worker id k is
      the one the worker with id k sends into, and no other lcore polls or fills it. */
  lemma TxRingsMeet(c: Config, io: nat, p: nat, id: nat)
    requires Sized(c) && io < MAX_LCORES && p < MAX_PORTS && p in c.nicPorts[io] && c.types[io].Io?
    requires Polled(c) && OneOwner(c) && id < |Workers(c, MAX_LCORES)|
    ensures var l := Workers(c, MAX_LCORES)[id];
            && l < MAX_LCORES
            && PollSide(c, io, p, id, MAX_LCORES, 0) == OutSide(c, l, p, MAX_LCORES, 0) == TxRing(l, p)
    ensures forall io', p', id' | 0 <= p' < MAX_PORTS
                && PollSide(c, io', p', id', MAX_LCORES, 0) == PollSide(c, io, p, id, MAX_LCORES, 0) ::
              io' == io && p' == p && id' == id
    ensures forall l', p' | 0 <= l' < MAX_LCORES && 0 <= p' < MAX_PORTS
                && OutSide(c, l', p', MAX_LCORES, 0) == PollSide(c, io, p, id, MAX_LCORES, 0) ::
              l' == Workers(c, MAX_LCORES)[id] && p' == p
  {
    WorkersAre(c, MAX_LCORES);
  }

  ghost predicate HasRule(c: Config, port: nat) { exists r :: r in c.rules && r.ifOut == port }

  ghost predicate HasInput(c: Config, port: nat) {
    exists queues, q :: queues in c.rxQueues && q in queues && q.port == port
  }

  /** A port a worker picks: by a rule, or as the port a packet came from. */
  ghost predicate Picked(c: Config, port: nat) { HasRule(c, port) || HasInput(c, port) }

  predicate HasRing(c: Config, l: nat, port: nat)
    requires Sized(c) && l < MAX_LCORES
  {
    port < MAX_PORTS && OutSide(c, l, port, MAX_LCORES, 0) == TxRing(l, port)
  }

  /** The port a packet came from has a ring, in every configuration that passes the checks. */
  lemma InputHasRing(c: Config, port: nat, l: nat)
    requires Sized(c) && Consistent(c) && RxHasTx(c) && l < MAX_LCORES && c.types[l].Worker?
    requires HasInput(c, port)
    ensures HasRing(c, l, port)
  {
    var queues, q :| queues in c.rxQueues && q in queues && q.port == port;
    var io :| 0 <= io < MAX_LCORES && c.rxQueues[io] == queues;
    assert q == Queue(port, q.queue) && c.rxMask[port][q.queue];
    assert HasRxQueue(c, port);
  }

  /** Whatever arguments were parsed into c inside the arrays, and whatever lies past the mask of
      ports, once the two checks accept it: every port a worker picks has a ring in every worker
      if and only if every rule's port is below 32. */
  lemma PickedPortHasRing(args: seq<Arg>, c: Config, past: nat -> bool, l: nat)
    requires Parses(UNSET, args, c) && Sized(c) && Accepts(c, past) && l < MAX_LCORES && c.types[l].Worker?
    ensures (forall port :: Picked(c, port) ==> HasRing(c, l, port)) <==> RulesBelow(c, MAX_PORTS)
  {
    UnsetOk();
    ParseKeeps(UNSET, args, c);
    hide Sized, Consistent, HasRing, HasInput;
    if RulesBelow(c, MAX_PORTS) {
      forall port | Picked(c, port) ensures HasRing(c, l, port) {
        if HasRule(c, port) {
          RuleHasRing(c, past, port, l);
        } else {
          InputHasRing(c, port, l);
        }
      }
    } else {
      var i :| 0 <= i < |c.rules| && c.rules[i].ifOut >= MAX_PORTS;
      assert c.rules[i] in c.rules;
      assert Picked(c, c.rules[i].ifOut);
      NoRingPast(c, l, c.rules[i].ifOut);
    }
  }

  lemma RuleHasRing(c: Config, past: nat -> bool, port: nat, l: nat)
    requires Sized(c) && Accepts(c, past) && l < MAX_LCORES && c.types[l].Worker?
    requires HasRule(c, port) && RulesBelow(c, MAX_PORTS)
    ensures HasRing(c, l, port)
  {
    var r :| r in c.rules && r.ifOut == port;
    var i :| 0 <= i < |c.rules| && c.rules[i] == r;
    assert TxByte(c, past, c.rules[i].ifOut);
  }

  lemma NoRingPast(c: Config, l: nat, port: nat)
    requires Sized(c) && l < MAX_LCORES && port >= MAX_PORTS
    ensures !HasRing(c, l, port)
  {
  }

  /** Lcore 2 works, lcore 1 has port 0 both ways, and 1.0.0.0/24 goes to port 67. */
  const RULE_FOR_67 := Rule(0x100_0000, 24, 67)
  const ARGS_FOR_67 := [ArgW(2), ArgRx(0, 0, 1), ArgTx(0, 1), ArgLpm(RULE_FOR_67)]

  /** The first three of them, one after the other. */
  lemma PortParsed() returns (c1: Config, c2: Config, c3: Config)
    ensures Sized(UNSET) && Fits(UNSET, ArgW(2)) && c1 == ParseOne(UNSET, ArgW(2))
    ensures Sized(c1) && Fits(c1, ArgRx(0, 0, 1)) && c2 == ParseOne(c1, ArgRx(0, 0, 1))
    ensures Sized(c2) && Fits(c2, ArgTx(0, 1)) && c3 == ParseOne(c2, ArgTx(0, 1))
    ensures Sized(c3) && c3.rules == [] && c3.types[2].Worker?
    ensures forall p :: 0 <= p < MAX_PORTS ==> (c3.txMask[p] <==> p == 0)
    ensures forall p, q :: 0 < p < MAX_PORTS && 0 <= q < MAX_QUEUES ==> !c3.rxMask[p][q]
  {
    UnsetOk();
    c1 := ParseOne(UNSET, ArgW(2));
    OneSized(UNSET, ArgW(2));
    c2 := ParseOne(c1, ArgRx(0, 0, 1));
    OneSized(c1, ArgRx(0, 0, 1));
    c3 := ParseOne(c2, ArgTx(0, 1));
    OneSized(c2, ArgTx(0, 1));
  }

  lemma RuleParses() returns (c: Config)
    ensures Parses(UNSET, ARGS_FOR_67, c) && Sized(c) && c.rules == [RULE_FOR_67] && c.types[2].Worker?
    ensures forall p :: 0 <= p < MAX_PORTS ==> (c.txMask[p] <==> p == 0)
    ensures forall p, q :: 0 < p < MAX_PORTS && 0 <= q < MAX_QUEUES ==> !c.rxMask[p][q]
  {
    var c1, c2, c3 := PortParsed();
    c := ParseOne(c3, ArgLpm(RULE_FOR_67));
    OneSized(c3, ArgLpm(RULE_FOR_67));
    assert [] + [RULE_FOR_67] == [RULE_FOR_67];
    hide Sized, ParseOne, Fits;
    assert Parses(c, [], c);
    ParsesMore(c3, ArgLpm(RULE_FOR_67), [], c);
    ParsesMore(c2, ArgTx(0, 1), [ArgLpm(RULE_FOR_67)], c);
    ParsesMore(c1, ArgRx(0, 0, 1), [ArgTx(0, 1), ArgLpm(RULE_FOR_67)], c);
    ParsesMore(UNSET, ArgW(2), [ArgRx(0, 0, 1), ArgTx(0, 1), ArgLpm(RULE_FOR_67)], c);
  }

  /** Byte 67 is the highest of the rule's own address. */
  lemma OwnAddressRead(c: Config, posLb: nat, beyond: nat -> bool)
    requires c.rules == [RULE_FOR_67]
    ensures Behind(c, posLb, beyond)(67)
  {
    assert WordBehind(c, 8) == 0x100_0000;
    assert ByteOf(0x100_0000, 3) == ByteOf(0x1_0000, 2) == ByteOf(0x100, 1) == ByteOf(1, 0) == 1;
  }

  /** A rule for port 67: the arguments fit, the checks accept them, whatever pos_lb is and whatever
      follows the parameters in memory, and the worker has no ring for what the rule picks. */
  lemma RuleWithoutRing(posLb: nat, beyond: nat -> bool)
    ensures exists c :: Parses(UNSET, ARGS_FOR_67, c) && Sized(c) && Accepts(c, Behind(c, posLb, beyond)) && !Sound(c)
                        && c.types[2].Worker? && Picked(c, 67) && !HasRing(c, 2, 67)
  {
    var c := RuleParses();
    assert Parses(UNSET, ARGS_FOR_67, c);
    assert forall p :: 0 < p < MAX_PORTS ==> !HasRxQueue(c, p);
    OwnAddressRead(c, posLb, beyond);
    hide Behind;
    assert Accepts(c, Behind(c, posLb, beyond));
    assert !Sound(c) by { assert c.rules[0].ifOut == 67; }
    assert RULE_FOR_67 in c.rules && HasRule(c, 67);
    assert Picked(c, 67) && !HasRing(c, 2, 67);
  }

  const TX_BUFFERS := 16

  /** app_lcore_io_tx and app_lcore_io_tx_flush index their 16 output buffers by port number.  In a
      configuration that app_init_rings_tx accepts they stay inside them exactly when no port from
      16 on has TX. */
  lemma TxBuffersFit(c: Config)
    requires Sized(c) && Consistent(c) && Polled(c)
    ensures (forall l, p: nat :: 0 <= l < MAX_LCORES && Lists(c, l, p) ==> p < TX_BUFFERS)
       <==> (forall p :: TX_BUFFERS <= p < MAX_PORTS ==> !c.txMask[p])
  {
    if forall p :: TX_BUFFERS <= p < MAX_PORTS ==> !c.txMask[p] {
      forall l, p: nat | 0 <= l < MAX_LCORES && Lists(c, l, p) ensures p < TX_BUFFERS {
        assert c.txMask[p];
      }
    }
  }

  /** Lcore 2 works, and lcore 1 transmits to port 16. */
  const ARGS_FOR_16 := [ArgW(2), ArgTx(16, 1)]

  lemma PortParses() returns (c: Config)
    ensures Parses(UNSET, ARGS_FOR_16, c) && Sized(c) && c.rules == [] && c.types[2].Worker? && c.types[1].Io?
    ensures forall l :: 0 <= l < MAX_LCORES ==> c.nicPorts[l] == if l == 1 then [16] else []
    ensures forall p :: 0 <= p < MAX_PORTS ==> (c.txMask[p] <==> p == 16)
    ensures forall p, q :: 0 <= p < MAX_PORTS && 0 <= q < MAX_QUEUES ==> !c.rxMask[p][q]
  {
    UnsetOk();
    var c1 := ParseOne(UNSET, ArgW(2));
    OneSized(UNSET, ArgW(2));
    c := ParseOne(c1, ArgTx(16, 1));
    OneSized(c1, ArgTx(16, 1));
    assert [] + [16] == [16];
    hide Sized, ParseOne;
    assert Parses(c, [], c);
    ParsesMore(c1, ArgTx(16, 1), [], c);
    ParsesMore(UNSET, ArgW(2), [ArgTx(16, 1)], c);
  }

  /** Nothing checks it: arguments with a worker that every check accepts, and a port past the end
      of the buffers. */
  lemma TxBuffersTooFew(past: nat -> bool)
    ensures exists c :: Parses(UNSET, ARGS_FOR_16, c) && Sized(c) && Accepts(c, past) && Polled(c) && OneOwner(c)
                        && Workers(c, MAX_LCORES) != []
                        && exists l, p: nat :: 0 <= l < MAX_LCORES && Lists(c, l, p) && p >= TX_BUFFERS
  {
    var c := PortParses();
    assert Parses(UNSET, ARGS_FOR_16, c);
    assert forall p :: 0 <= p < MAX_PORTS ==> !HasRxQueue(c, p);
    assert Accepts(c, past);
    assert Lists(c, 1, 16) && Owns(c, 1, 16);
    assert Polled(c);
    forall l | 0 <= l < MAX_LCORES && c.types[l].Io? ensures OwnedUpto(c, l, |c.nicPorts[l]|) {}
    assert OneOwner(c);
    WorkerAt(c, 2, MAX_LCORES);
  }
}
