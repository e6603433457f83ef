/** The set-up of l2fwd (examples/l2fwd.cr): which port each port forwards to. */
module L2fwd {
  import opened Bits
  import opened Ascending
  import opened Limits

  predicate InMask(mask: nat, port: nat) { And(mask, Pow2(port)) != 0 }

  /** Bit p of the mask is one. */
  predicate BitSet(mask: nat, p: nat) {
    Pow2Positive(p);
    mask / Pow2(p) % 2 == 1
  }

  /** The enabled ports below n, in ascending order. */
  function Ports(mask: nat, n: nat): seq<nat> { Below(n, (p: nat) => InMask(mask, p)) }

  /** The ports below n whose bit of the mask is set, each once and in ascending order, are all of
      them. */
  lemma EnabledPorts(mask: nat, n: nat)
    ensures forall p: nat :: p in Ports(mask, n) <==> p < n && BitSet(mask, p)
    ensures var ps := Ports(mask, n); forall a, b :: 0 <= a < b < |ps| ==> ps[a] < ps[b]
  {
    PortsAre(mask, n);
    hide Ports;
    forall p: nat ensures InMask(mask, p) <==> BitSet(mask, p) {
      AndBit(mask, p);
    }
  }

  lemma PortsAre(mask: nat, n: nat)
    ensures var ps := Ports(mask, n);
            && |ps| <= n && (forall p: nat :: p in ps <==> p < n && InMask(mask, p))
            && (forall a, b :: 0 <= a < b < |ps| ==> ps[a] < ps[b])
            && (forall k :: 0 <= k < |ps| ==> ps[k] in ps) && (n <= MAX_PORTS ==> Rising(ps))
  {
    BelowIs(n, (p: nat) => InMask(mask, p));
    BelowAscends(n, (p: nat) => InMask(mask, p));
    var ps := Ports(mask, n);
    assert forall k :: 0 <= k < |ps| ==> ps[k] in ps;
  }

  lemma PortsNext(mask: nat, n: nat)
    ensures Ports(mask, 0) == []
    ensures Ports(mask, n + 1) == if InMask(mask, n) then Ports(mask, n) + [n] else Ports(mask, n)
  {
    BelowNext(n, (p: nat) => InMask(mask, p));
  }

  /** The position paired with position k among m ports. */
  function Partner(k: nat, m: nat): nat {
    if k % 2 == 1 then k - 1 else if k + 1 < m then k + 1 else k
  }

  lemma PartnerTwice(k: nat, m: nat)
    requires k < m
    ensures Partner(k, m) < m && Partner(Partner(k, m), m) == k && k - 1 <= Partner(k, m) <= k + 1
    ensures Partner(k, m) == k <==> m % 2 == 1 && k == m - 1
  {
  }

  /** Another port changes the partner of nobody but the one that waits for it. */
  lemma PartnerStays(k: nat, m: nat)
    requires k < m && (m % 2 == 0 || k < m - 1)
    ensures Partner(k, m + 1) == Partner(k, m) < m && Partner(k, m) != k
    ensures m % 2 == 1 ==> Partner(k, m) != m - 1
  {
  }

  /** Port k of the list forwards to its partner. */
  ghost predicate Forwards(dst: seq<nat>, ps: seq<nat>, k: nat)
    requires |dst| == MAX_PORTS && k < |ps|
  {
    ps[k] < MAX_PORTS && Partner(k, |ps|) < |ps| && dst[ps[k]] == ps[Partner(k, |ps|)]
  }

  /** The ports paired so far; the last one of an odd number still waits. */
  ghost predicate Paired(dst: seq<nat>, ps: seq<nat>)
    requires |dst| == MAX_PORTS
  {
    forall k :: 0 <= k < |ps| && (|ps| % 2 == 0 || k < |ps| - 1) ==> Forwards(dst, ps, k)
  }

  ghost predicate Rising(ps: seq<nat>) {
    (forall k :: 0 <= k < |ps| ==> ps[k] < MAX_PORTS) && forall a, b :: 0 <= a < b < |ps| ==> ps[a] < ps[b]
  }

  lemma PairMore(dst: seq<nat>, ps: seq<nat>, port: nat)
    requires |dst| == MAX_PORTS && Paired(dst, ps) && Rising(ps + [port])
    ensures port < MAX_PORTS
    ensures |ps| % 2 == 0 ==> Paired(dst, ps + [port])
    ensures |ps| % 2 == 1 ==>
              var last := ps[|ps| - 1];
              last < MAX_PORTS && Paired(dst[port := last][last := port], ps + [port])
  {
    var qs, m := ps + [port], |ps|;
    assert qs[m] == port;
    assert forall k :: 0 <= k < m ==> qs[k] == ps[k];
    var last := if m % 2 == 1 then ps[m - 1] else port;
    var dst' := if m % 2 == 1 then dst[port := last][last := port] else dst;
    forall k | 0 <= k < |qs| && (|qs| % 2 == 0 || k < |qs| - 1) ensures Forwards(dst', qs, k) {
      if k < m && (m % 2 == 0 || k < m - 1) {
        PartnerStays(k, m);
        assert Forwards(dst, ps, k);
      }
    }
  }

  lemma PairNext(dst: seq<nat>, mask: nat, port: nat)
    requires |dst| == MAX_PORTS && port < MAX_PORTS && InMask(mask, port) && Paired(dst, Ports(mask, port))
    ensures Ports(mask, port + 1) == Ports(mask, port) + [port]
    ensures var m := |Ports(mask, port)|;
            if m % 2 == 0 then Paired(dst, Ports(mask, port + 1))
            else var last := Ports(mask, port)[m - 1];
                 last < MAX_PORTS && Paired(dst[port := last][last := port], Ports(mask, port + 1))
  {
    PortsNext(mask, port);
    PortsAre(mask, port + 1);
    hide Ports, InMask, Paired;
    PairMore(dst, Ports(mask, port), port);
  }

  /** The pairing loop of main. */
  method Pair(mask: nat, nbPorts: nat) returns (dst: array<nat>)
    requires nbPorts <= MAX_PORTS
    ensures dst.Length == MAX_PORTS && fresh(dst)
    ensures var ps := Ports(mask, nbPorts); forall k :: 0 <= k < |ps| ==> Forwards(dst[..], ps, k)
  {
    hide Ports, InMask, Paired, Forwards, Rising;
    dst := new nat[MAX_PORTS](i => 0);
    PortsNext(mask, 0);
    NonePaired(dst[..]);
    var inMask: nat, last: nat := 0, 0;
    for port: nat := 0 to nbPorts
      invariant inMask == |Ports(mask, port)| && last < MAX_PORTS && Paired(dst[..], Ports(mask, port))
      invariant inMask % 2 == 1 ==> last == Ports(mask, port)[inMask - 1]
    {
      PortsNext(mask, port);
      if !InMask(mask, port) { continue; }
      ghost var was: seq<nat> := dst[..];
      PairNext(was, mask, port);
      if inMask % 2 == 1 {
        dst[port] := last;
        dst[last] := port;
        assert dst[..] == was[port := last][last := port];
      } else {
        last := port;
        assert dst[..] == was;
      }
      inMask := inMask + 1;
    }
    ghost var was: seq<nat> := dst[..];
    if inMask % 2 == 1 {
      dst[last] := last;
      assert dst[..] == was[last := last];
    }
    PortsAre(mask, nbPorts);
    AllForward(was, Ports(mask, nbPorts), last);
  }

  lemma NonePaired(dst: seq<nat>)
    requires |dst| == MAX_PORTS
    ensures Paired(dst, [])
  {
  }

  lemma AllForward(dst: seq<nat>, ps: seq<nat>, last: nat)
    requires |dst| == MAX_PORTS && Paired(dst, ps) && Rising(ps)
    requires |ps| % 2 == 1 ==> last == ps[|ps| - 1]
    ensures |ps| % 2 == 1 ==> last < MAX_PORTS
    ensures var dst' := if |ps| % 2 == 1 then dst[last := last] else dst;
            forall k :: 0 <= k < |ps| ==> Forwards(dst', ps, k)
  {
    var dst' := if |ps| % 2 == 1 then dst[last := last] else dst;
    forall k | 0 <= k < |ps| ensures Forwards(dst', ps, k) {
      if |ps| % 2 == 0 || k < |ps| - 1 {
        assert Forwards(dst, ps, k);
      }
    }
  }

  /** No enabled port lies between two others. */
  ghost predicate Neighbours(mask: nat, p: nat, q: nat) {
    forall r: nat :: p < r < q || q < r < p ==> !BitSet(mask, r)
  }

  lemma NextToEachOther(mask: nat, n: nat, k: nat, j: nat)
    requires k < |Ports(mask, n)| && j < |Ports(mask, n)| && k - 1 <= j <= k + 1
    ensures Neighbours(mask, Ports(mask, n)[k], Ports(mask, n)[j])
  {
    EnabledPorts(mask, n);
    PortsAre(mask, n);
    hide Ports, BitSet;
    var ps := Ports(mask, n);
    forall r: nat | ps[k] < r < ps[j] || ps[j] < r < ps[k] ensures !BitSet(mask, r) {
      assert ps[k] in ps && ps[j] in ps;
      forall i | 0 <= i < |ps| ensures ps[i] != r {
        if i > k && i > j { assert ps[i] > ps[k] && ps[i] > ps[j]; }
        if i < k && i < j { assert ps[i] < ps[k] && ps[i] < ps[j]; }
      }
    }
  }

  /** What the pairing means, for the ports whose bit is set: going there twice comes back, every
      destination is enabled and a neighbour, and only the last port of an odd number forwards to
      itself. */
  lemma PairingIsInvolution(mask: nat, n: nat, dst: seq<nat>)
    requires n <= MAX_PORTS && |dst| == MAX_PORTS
    requires forall k :: 0 <= k < |Ports(mask, n)| ==> Forwards(dst, Ports(mask, n), k)
    ensures forall p: nat :: p < n && BitSet(mask, p) ==>
              && dst[p] < n && BitSet(mask, dst[p]) && dst[dst[p]] == p && Neighbours(mask, p, dst[p])
    ensures var ps := Ports(mask, n);
            forall p: nat :: p < n && BitSet(mask, p) ==> (dst[p] == p <==> |ps| % 2 == 1 && p == ps[|ps| - 1])
  {
    EnabledPorts(mask, n);
    PortsAre(mask, n);
    hide Ports, InMask, Partner, Neighbours, BitSet;
    var ps := Ports(mask, n);
    forall p: nat | p < n && BitSet(mask, p)
      ensures dst[p] < n && BitSet(mask, dst[p]) && dst[dst[p]] == p && Neighbours(mask, p, dst[p])
      ensures dst[p] == p <==> |ps| % 2 == 1 && p == ps[|ps| - 1]
    {
      var k :| 0 <= k < |ps| && ps[k] == p;
      var j := Partner(k, |ps|);
      PartnerTwice(k, |ps|);
      assert Forwards(dst, ps, k) && Forwards(dst, ps, j);
      assert ps[j] in ps;
      NextToEachOther(mask, n, k, j);
    }
  }
}
