/** The set-up of l2fwd (examples/l2fwd.cr): which lcore receives from which ports.  The lists of
    ports are kept as they lie in memory, since nothing stops a list from outgrowing its struct. */
module L2fwdLcores {
  import opened Bits
  import opened LcoreSearch
  import opened Ascending
  import opened L2fwd
  import opened Limits

  const RX_PORT_LIST := 16
  const STRUCT := RX_PORT_LIST + 1
  const BEHIND := 64

  function Times(i: nat, q: nat): nat { i * q }

  lemma TimesMore(i: nat, q: nat)
    ensures Times(0, q) == 0 && Times(i + 1, q) == Times(i, q) + q
  {
  }

  lemma {:induction false} TimesGrows(i: nat, k: nat, q: nat)
    requires i <= k
    ensures Times(i, q) <= Times(k, q)
    decreases k
  {
    if i < k {
      TimesGrows(i, k - 1, q);
      TimesMore(k - 1, q);
    }
  }

  /** The enabled lcores below n. */
  function Lcores(cfg: Config, n: nat): seq<nat> { Below(n, Kept(cfg, false)) }

  lemma LcoresAre(cfg: Config, n: nat)
    ensures var ls := Lcores(cfg, n);
            forall i :: 0 <= i < |ls| ==> ls[i] < n && Enabled(cfg, ls[i])
    ensures Lcores(cfg, n + 1) == if Enabled(cfg, n) then Lcores(cfg, n) + [n] else Lcores(cfg, n)
    ensures n <= MAX_LCORES ==> Lcores(cfg, n) <= Lcores(cfg, MAX_LCORES)
  {
    BelowIs(n, Kept(cfg, false));
    BelowNext(n, Kept(cfg, false));
    var ls := Lcores(cfg, n);
    assert forall i :: 0 <= i < |ls| ==> ls[i] in ls;
    if n <= MAX_LCORES { BelowPrefix(n, MAX_LCORES, Kept(cfg, false)); }
  }

  lemma LcoreFound(cfg: Config, l: nat)
    requires Enabled(cfg, l)
    ensures l in Lcores(cfg, MAX_LCORES)
  {
    BelowIs(MAX_LCORES, Kept(cfg, false));
  }

  /** The ports of the i-th enabled lcore: q of them, or what is left. */
  function Share(ps: seq<nat>, q: nat, i: nat): seq<nat> {
    ps[Min(Times(i, q), |ps|)..Min(Times(i, q) + q, |ps|)]
  }

  /** The ports ps are placed, and rx is the current lcore. */
  ghost predicate Placed(cfg: Config, conf: seq<seq<nat>>, ps: seq<nat>, q: nat, rx: nat) {
    var full := Lcores(cfg, rx);
    var base := Times(|full|, q);
    && |conf| == MAX_LCORES && rx < MAX_LCORES && base <= |ps|
    && (forall i :: 0 <= i < |full| ==> full[i] < rx && conf[full[i]] == Share(ps, q, i))
    && (forall l :: 0 <= l < MAX_LCORES && (!Enabled(cfg, l) || l > rx) ==> conf[l] == [])
    && (if Enabled(cfg, rx) then |ps| <= base + q && conf[rx] == ps[base..] else |ps| == base)
  }

  /** The final allocation. */
  ghost predicate Shared(cfg: Config, conf: seq<seq<nat>>, ps: seq<nat>, q: nat) {
    var ls := Lcores(cfg, MAX_LCORES);
    && |conf| == MAX_LCORES
    && (forall i :: 0 <= i < |ls| ==> ls[i] < MAX_LCORES && conf[ls[i]] == Share(ps, q, i))
    && (forall l :: 0 <= l < MAX_LCORES && !Enabled(cfg, l) ==> conf[l] == [])
  }

  /** When a full or disabled lcore is passed over, all lcores so far are full. */
  lemma PassedFull(cfg: Config, conf: seq<seq<nat>>, ps: seq<nat>, q: nat, rx: nat)
    requires Placed(cfg, conf, ps, q, rx) && (!Enabled(cfg, rx) || |conf[rx]| == q)
    ensures |ps| == Times(|Lcores(cfg, rx + 1)|, q)
  {
    PlacedTail(cfg, conf, ps, q, rx);
    LcoreNext(cfg, rx);
    TimesMore(|Lcores(cfg, rx)|, q);
    hide Lcores, Times, Enabled, Share, Placed;
  }

  lemma PassedShare(cfg: Config, conf: seq<seq<nat>>, ps: seq<nat>, q: nat, rx: nat, i: nat)
    requires Placed(cfg, conf, ps, q, rx) && (!Enabled(cfg, rx) || |conf[rx]| == q)
    requires i < |Lcores(cfg, rx + 1)|
    ensures Lcores(cfg, rx + 1)[i] < rx + 1 && conf[Lcores(cfg, rx + 1)[i]] == Share(ps, q, i)
  {
    var full := Lcores(cfg, rx);
    LcoreNext(cfg, rx);
    PassedFull(cfg, conf, ps, q, rx);
    TimesMore(|full|, q);
    ShareEnds(ps, q, |full|);
    hide Lcores, Times, Enabled, Share;
    if i < |full| { assert Lcores(cfg, rx + 1)[i] == full[i]; }
  }

  /** A full or disabled lcore is passed over. */
  lemma PassOver(cfg: Config, conf: seq<seq<nat>>, ps: seq<nat>, q: nat, rx: nat)
    requires Placed(cfg, conf, ps, q, rx) && (!Enabled(cfg, rx) || |conf[rx]| == q)
    ensures rx + 1 < MAX_LCORES ==> Placed(cfg, conf, ps, q, rx + 1)
    ensures rx + 1 == MAX_LCORES ==> |ps| == Times(|Lcores(cfg, MAX_LCORES)|, q)
  {
    hide Lcores, Times, Enabled, Share;
    var next := Lcores(cfg, rx + 1);
    PassedFull(cfg, conf, ps, q, rx);
    forall i | 0 <= i < |next| ensures next[i] < rx + 1 && conf[next[i]] == Share(ps, q, i) {
      PassedShare(cfg, conf, ps, q, rx, i);
    }
    assert ps[Times(|next|, q)..] == [];
  }

  /** One more port goes to the current lcore, which has room. */
  lemma PlaceOne(cfg: Config, conf: seq<seq<nat>>, ps: seq<nat>, q: nat, rx: nat, port: nat)
    requires Placed(cfg, conf, ps, q, rx) && Enabled(cfg, rx) && |conf[rx]| != q
    ensures Placed(cfg, conf[rx := conf[rx] + [port]], ps + [port], q, rx)
  {
    var full := Lcores(cfg, rx);
    LcoresAre(cfg, rx);
    hide Lcores, Times, Share, Enabled;
    forall i | 0 <= i < |full| ensures Share(ps + [port], q, i) == Share(ps, q, i) {
      TimesGrows(i + 1, |full|, q);
      TimesMore(i, q);
      ShareStays(ps, q, i, port);
    }
    assert (ps + [port])[Times(|full|, q)..] == ps[Times(|full|, q)..] + [port];
  }

  /** A share that is full does not grow. */
  lemma ShareStays(ps: seq<nat>, q: nat, i: nat, port: nat)
    requires Times(i, q) + q <= |ps|
    ensures Share(ps + [port], q, i) == Share(ps, q, i)
  {
    hide Times;
  }

  /** When every port is placed the allocation is final. */
  lemma PlacedAll(cfg: Config, conf: seq<seq<nat>>, ps: seq<nat>, q: nat, rx: nat)
    requires Placed(cfg, conf, ps, q, rx)
    ensures Shared(cfg, conf, ps, q) && |ps| <= Times(|Lcores(cfg, MAX_LCORES)|, q)
  {
    var ls := Lcores(cfg, MAX_LCORES);
    var n := PlacedCount(cfg, rx);
    TimesMore(|Lcores(cfg, rx)|, q);
    TimesGrows(n, |ls|, q);
    LcoresAre(cfg, MAX_LCORES);
    hide Lcores, Times, Enabled, Share;
    forall i | 0 <= i < |ls| ensures ls[i] < MAX_LCORES && conf[ls[i]] == Share(ps, q, i) {
      PlacedShare(cfg, conf, ps, q, rx, i);
    }
  }

  lemma PlacedShare(cfg: Config, conf: seq<seq<nat>>, ps: seq<nat>, q: nat, rx: nat, i: nat)
    requires Placed(cfg, conf, ps, q, rx) && i < |Lcores(cfg, MAX_LCORES)|
    ensures Lcores(cfg, MAX_LCORES)[i] < MAX_LCORES && conf[Lcores(cfg, MAX_LCORES)[i]] == Share(ps, q, i)
  {
    hide Placed, Lcores, Times, Enabled, Share;
    var full, ls := Lcores(cfg, rx), Lcores(cfg, MAX_LCORES);
    PlacedTail(cfg, conf, ps, q, rx);
    var n := PlacedCount(cfg, rx);
    if i < |full| {
      assert ls[i] == full[i];
      PlacedFull(cfg, conf, ps, q, rx, i);
    } else {
      TimesMore(|full|, q);
      ShareEnds(ps, q, i);
      if i >= n {
        LcoresAre(cfg, MAX_LCORES);
        TimesGrows(n, i, q);
        PlacedLater(cfg, conf, ps, q, rx, ls[i]);
      }
    }
  }

  lemma PlacedFull(cfg: Config, conf: seq<seq<nat>>, ps: seq<nat>, q: nat, rx: nat, i: nat)
    requires Placed(cfg, conf, ps, q, rx) && i < |Lcores(cfg, rx)|
    ensures Lcores(cfg, rx)[i] < MAX_LCORES == |conf| && conf[Lcores(cfg, rx)[i]] == Share(ps, q, i)
  {
  }

  lemma PlacedLater(cfg: Config, conf: seq<seq<nat>>, ps: seq<nat>, q: nat, rx: nat, l: nat)
    requires Placed(cfg, conf, ps, q, rx) && rx < l < MAX_LCORES
    ensures |conf| == MAX_LCORES && conf[l] == []
  {
  }

  /** The current lcore has the ports after those of the full ones. */
  lemma PlacedTail(cfg: Config, conf: seq<seq<nat>>, ps: seq<nat>, q: nat, rx: nat)
    requires Placed(cfg, conf, ps, q, rx)
    ensures |conf| == MAX_LCORES && rx < MAX_LCORES
    ensures var base := Times(|Lcores(cfg, rx)|, q);
            base <= |ps| && if Enabled(cfg, rx) then |ps| <= base + q && conf[rx] == ps[base..] else |ps| == base
  {
  }

  lemma ShareEnds(ps: seq<nat>, q: nat, i: nat)
    ensures |ps| <= Times(i, q) ==> Share(ps, q, i) == []
    ensures Times(i, q) <= |ps| <= Times(i, q) + q ==> Share(ps, q, i) == ps[Times(i, q)..]
  {
  }

  /** How many enabled lcores there are up to rx, and where the others are. */
  lemma PlacedCount(cfg: Config, rx: nat) returns (n: nat)
    requires rx < MAX_LCORES
    ensures var full, ls := Lcores(cfg, rx), Lcores(cfg, MAX_LCORES);
            && n == (if Enabled(cfg, rx) then |full| + 1 else |full|) && n <= |ls| && full <= ls
            && (Enabled(cfg, rx) ==> ls[|full|] == rx) && forall i :: n <= i < |ls| ==> ls[i] > rx
  {
    n := |Lcores(cfg, rx + 1)|;
    LcoresAre(cfg, rx);
    LcoresAre(cfg, rx + 1);
    LcoresAfter(cfg, rx + 1);
  }

  lemma LcoresAfter(cfg: Config, n: nat)
    requires n <= MAX_LCORES
    ensures var ls := Lcores(cfg, MAX_LCORES);
            Lcores(cfg, n) <= ls && forall i :: |Lcores(cfg, n)| <= i < |ls| ==> ls[i] >= n
  {
    BelowPrefix(n, MAX_LCORES, Kept(cfg, false));
  }

  lemma PortsGrow(mask: nat, a: nat, b: nat)
    requires a <= b
    ensures |Ports(mask, a)| <= |Ports(mask, b)|
  {
    BelowPrefix(a, b, (p: nat) => InMask(mask, p));
  }

  lemma {:induction false} FindShare(k: nat, q: nat, n: nat) returns (i: nat)
    requires k < Times(n, q)
    ensures i < n && Times(i, q) <= k < Times(i, q) + q
  {
    TimesMore(n - 1, q);
    if k >= Times(n - 1, q) { i := n - 1; } else { i := FindShare(k, q, n - 1); }
  }

  /** A port of a share has its position in the share's range. */
  lemma PositionIn(ps: seq<nat>, q: nat, i: nat, p: nat) returns (k: nat)
    requires p in Share(ps, q, i)
    ensures k < |ps| && ps[k] == p && Times(i, q) <= k < Times(i, q) + q
  {
    var s := Share(ps, q, i);
    var j :| 0 <= j < |s| && s[j] == p;
    k := Min(Times(i, q), |ps|) + j;
  }

  lemma SharesApart(ps: seq<nat>, q: nat, i: nat, i': nat, p: nat)
    requires Rising(ps) && p in Share(ps, q, i) && p in Share(ps, q, i')
    ensures i == i'
  {
    var k := PositionIn(ps, q, i, p);
    var k' := PositionIn(ps, q, i', p);
    assert k == k';
    if i < i' {
      TimesMore(i, q);
      TimesGrows(i + 1, i', q);
    } else if i' < i {
      TimesMore(i', q);
      TimesGrows(i' + 1, i, q);
    }
  }

  // ---------- The lists in memory ----------

  /** lcore_queue_conf as words: each lcore has its count and 16 entries, and words of whatever
      else there is follow the last lcore. */
  predicate Layout(w: seq<nat>) { |w| == STRUCT * MAX_LCORES + BEHIND }

  function CountAt(l: nat): nat { STRUCT * l }

  /** The list of an lcore as the forwarding loop reads it: as many entries as the count says. */
  ghost predicate Reads(w: seq<nat>, l: nat, list: seq<nat>) {
    && CountAt(l) < |w| && w[CountAt(l)] == |list| && CountAt(l) + 1 + |list| <= |w|
    && w[CountAt(l) + 1..CountAt(l) + 1 + |list|] == list
  }

  /** Every enabled lcore reads its share. */
  ghost predicate Allocated(cfg: Config, w: seq<nat>, ps: seq<nat>, q: nat) {
    forall i :: 0 <= i < |Lcores(cfg, MAX_LCORES)| ==> Reads(w, Lcores(cfg, MAX_LCORES)[i], Share(ps, q, i))
  }

  /** No list outgrows its 16 entries, or the one that does has no enabled lcore behind it. */
  predicate Safe(cfg: Config, ps: seq<nat>, q: nat) {
    var ls := Lcores(cfg, MAX_LCORES);
    q <= RX_PORT_LIST || |ps| <= RX_PORT_LIST || ls == [] || !Enabled(cfg, ls[0] + 1)
  }

  /** What the allocation is for: it fails only for want of lcores, and otherwise shares out. */
  ghost predicate Keeps(cfg: Config, ps: seq<nat>, q: nat, ok: bool, w: seq<nat>) {
    && (ok <==> |ps| <= Times(|Lcores(cfg, MAX_LCORES)|, q))
    && (ok ==> Allocated(cfg, w, ps, q))
  }

  // ---------- While the lists stay apart ----------

  /** The lists in memory are those of the enabled lcores, and only the struct of an lcore that is
      not enabled is ever written past a list's end. */
  ghost predicate Coupled(cfg: Config, w: seq<nat>, conf: seq<seq<nat>>) {
    && Layout(w) && |conf| == MAX_LCORES
    && forall l :: 0 <= l < MAX_LCORES && Enabled(cfg, l) ==>
         Reads(w, l, conf[l]) && |conf[l]| <= MAX_PORTS && (|conf[l]| <= RX_PORT_LIST || !Enabled(cfg, l + 1))
  }

  lemma ReadsApart(w: seq<nat>, l: nat, list: seq<nat>, j: nat, v: nat)
    requires Reads(w, l, list) && j < |w| && (j < CountAt(l) || CountAt(l) + 1 + |list| <= j)
    ensures Reads(w[j := v], l, list)
  {
  }

  lemma ReadsMore(w: seq<nat>, l: nat, list: seq<nat>, v: nat)
    requires Reads(w, l, list) && CountAt(l) + 1 + |list| < |w|
    ensures Reads(w[CountAt(l) + 1 + |list| := v][CountAt(l) := |list| + 1], l, list + [v])
  {
  }

  /** The store of one port and of the new count, at the lcore rx with n ports. */
  function Stored(w: seq<nat>, rx: nat, n: nat, port: nat): seq<nat>
    requires CountAt(rx) + 1 + n < |w|
  {
    w[CountAt(rx) + 1 + n := port][CountAt(rx) := n + 1]
  }

  lemma StoreCouples(cfg: Config, w: seq<nat>, conf: seq<seq<nat>>, rx: nat, port: nat)
    requires Coupled(cfg, w, conf) && rx < MAX_LCORES && Enabled(cfg, rx) && |conf[rx]| < MAX_PORTS
    requires |conf[rx]| < RX_PORT_LIST || !Enabled(cfg, rx + 1)
    ensures CountAt(rx) + 1 + |conf[rx]| < |w|
    ensures Coupled(cfg, Stored(w, rx, |conf[rx]|, port), conf[rx := conf[rx] + [port]])
  {
    hide Reads, Enabled;
    var n := |conf[rx]|;
    var j := CountAt(rx) + 1 + n;
    var w', conf' := Stored(w, rx, n, port), conf[rx := conf[rx] + [port]];
    forall l | 0 <= l < MAX_LCORES && Enabled(cfg, l)
      ensures Reads(w', l, conf'[l]) && |conf'[l]| <= MAX_PORTS && (|conf'[l]| <= RX_PORT_LIST || !Enabled(cfg, l + 1))
    {
      if l == rx {
        ReadsMore(w, rx, conf[rx], port);
      } else {
        if l < rx && |conf[l]| > RX_PORT_LIST { assert l + 1 != rx; }
        if rx < l && n >= RX_PORT_LIST { assert rx + 1 != l; }
        ReadsApart(w, l, conf[l], j, port);
        ReadsApart(w[j := port], l, conf[l], CountAt(rx), n + 1);
      }
    }
  }

  /** The lists are all right when every port is placed without having run into another's struct. */
  lemma CoupledKeeps(cfg: Config, w: seq<nat>, conf: seq<seq<nat>>, ps: seq<nat>, q: nat, rx: nat)
    requires Coupled(cfg, w, conf) && Placed(cfg, conf, ps, q, rx)
    ensures Safe(cfg, ps, q) && Keeps(cfg, ps, q, true, w)
  {
    hide Placed, Lcores, Reads, Times, Share;
    PlacedAll(cfg, conf, ps, q, rx);
    LcoresAre(cfg, MAX_LCORES);
    var ls := Lcores(cfg, MAX_LCORES);
    if ls != [] {
      FirstShare(ps, q);
      assert Enabled(cfg, ls[0]) && conf[ls[0]] == Share(ps, q, 0);
    }
    forall i | 0 <= i < |ls| ensures Reads(w, ls[i], Share(ps, q, i)) {
      assert Enabled(cfg, ls[i]);
    }
  }

  lemma FirstShare(ps: seq<nat>, q: nat)
    ensures |Share(ps, q, 0)| == Min(q, |ps|)
    ensures q <= |ps| ==> |Share(ps, q, 1)| + q <= |ps|
    ensures q > |ps| ==> Share(ps, q, 1) == []
  {
    TimesMore(0, q);
  }

  lemma TwoLcores(cfg: Config)
    requires var ls := Lcores(cfg, MAX_LCORES); ls != [] && Enabled(cfg, ls[0] + 1)
    ensures var ls := Lcores(cfg, MAX_LCORES); |ls| >= 2 && ls[1] == ls[0] + 1 < MAX_LCORES
  {
    hide Lcores, Enabled;
    var first := Lcores(cfg, MAX_LCORES)[0];
    LcoreOk(cfg, 0);
    EnabledIsLcore(cfg, first + 1);
    FirstLcore(cfg);
    BothNext(cfg, first);
    LcoresBefore(cfg, first + 2);
  }

  lemma EnabledIsLcore(cfg: Config, l: nat)
    requires Enabled(cfg, l)
    ensures l < MAX_LCORES
  {
  }

  lemma LcoreOk(cfg: Config, i: nat)
    requires i < |Lcores(cfg, MAX_LCORES)|
    ensures Enabled(cfg, Lcores(cfg, MAX_LCORES)[i])
  {
    LcoresAre(cfg, MAX_LCORES);
  }

  lemma BothNext(cfg: Config, l: nat)
    requires Enabled(cfg, l) && Enabled(cfg, l + 1) && Lcores(cfg, l) == []
    ensures Lcores(cfg, l + 2) == [l, l + 1]
  {
    hide Lcores, Enabled;
    LcoreNext(cfg, l);
    LcoreNext(cfg, l + 1);
  }

  lemma LcoreNext(cfg: Config, n: nat)
    ensures Lcores(cfg, n + 1) == if Enabled(cfg, n) then Lcores(cfg, n) + [n] else Lcores(cfg, n)
  {
    LcoresAre(cfg, n);
  }

  lemma LcoresBefore(cfg: Config, n: nat)
    requires n <= MAX_LCORES
    ensures Lcores(cfg, n) <= Lcores(cfg, MAX_LCORES)
  {
    LcoresAre(cfg, n);
  }

  lemma FirstLcore(cfg: Config)
    requires Lcores(cfg, MAX_LCORES) != []
    ensures Lcores(cfg, Lcores(cfg, MAX_LCORES)[0]) == []
  {
    hide Below;
    BelowPositions(MAX_LCORES, Kept(cfg, false));
  }

  /** An allocation that can spill has lcores enough for 34 ports. */
  lemma UnsafeFits(cfg: Config, ps: seq<nat>, q: nat)
    requires !Safe(cfg, ps, q) && |ps| <= MAX_PORTS
    ensures |ps| <= Times(|Lcores(cfg, MAX_LCORES)|, q)
  {
    hide Lcores;
    TwoLcores(cfg);
    TimesMore(0, q);
    TimesMore(1, q);
    TimesGrows(2, |Lcores(cfg, MAX_LCORES)|, q);
  }

  // ---------- Once a list has run into the next lcore's struct ----------

  /** The first lcore's list has reached the count of the next, which is wrong from then on. */
  ghost predicate Spilled(cfg: Config, w: seq<nat>, rx: nat) {
    var ls := Lcores(cfg, MAX_LCORES);
    && Layout(w) && ls != [] && ls[0] + 1 < MAX_LCORES && ls[0] <= rx < MAX_LCORES
    && w[CountAt(ls[0])] > RX_PORT_LIST && w[CountAt(ls[0] + 1)] >= RX_PORT_LIST
  }

  lemma StoreSpilled(cfg: Config, w: seq<nat>, rx: nat, port: nat)
    requires Spilled(cfg, w, rx) && CountAt(rx) + 1 + w[CountAt(rx)] < |w|
    ensures Spilled(cfg, Stored(w, rx, w[CountAt(rx)], port), rx)
  {
    hide Lcores;
    StoreBehind(w, Lcores(cfg, MAX_LCORES)[0], rx, port);
  }

  /** From an lcore whose count is past 16, or from a later one, no store lowers its count or the
      next one's. */
  lemma StoreBehind(w: seq<nat>, l: nat, rx: nat, port: nat)
    requires l <= rx && CountAt(l + 1) < |w| && CountAt(rx) < |w| && w[CountAt(l)] > RX_PORT_LIST
    requires CountAt(rx) + 1 + w[CountAt(rx)] < |w|
    ensures var w' := Stored(w, rx, w[CountAt(rx)], port);
            w'[CountAt(l)] >= w[CountAt(l)] && w'[CountAt(l + 1)] >= w[CountAt(l + 1)]
  {
    var j := CountAt(rx) + 1 + w[CountAt(rx)];
    assert j > CountAt(l + 1);
  }

  lemma SpilledLoses(cfg: Config, w: seq<nat>, ps: seq<nat>, q: nat, rx: nat)
    requires Spilled(cfg, w, rx) && !Safe(cfg, ps, q) && |ps| <= MAX_PORTS
    ensures !Keeps(cfg, ps, q, true, w)
  {
    hide Lcores, Times, Share;
    TwoLcores(cfg);
    FirstShare(ps, q);
    if Allocated(cfg, w, ps, q) {
      assert false;
    }
  }

  /** Only the first enabled lcore can have 16 of fewer than 32 ports and be in want of more. */
  lemma SixteenIsFirst(cfg: Config, conf: seq<seq<nat>>, ps: seq<nat>, q: nat, rx: nat)
    requires Placed(cfg, conf, ps, q, rx) && Enabled(cfg, rx) && |conf[rx]| == RX_PORT_LIST != q && |ps| < MAX_PORTS
    ensures Lcores(cfg, rx) == [] && q > RX_PORT_LIST && |ps| >= RX_PORT_LIST
  {
    PlacedTail(cfg, conf, ps, q, rx);
    hide Lcores, Times, Placed, Enabled;
    var full := Lcores(cfg, rx);
    TimesMore(0, q);
    if full != [] {
      TimesGrows(1, |full|, q);
      assert false;
    }
  }

  lemma SeventeenthStored(w: seq<nat>, l: nat, port: nat)
    requires Layout(w) && l + 1 < MAX_LCORES
    ensures CountAt(l) + 1 + RX_PORT_LIST < |w|
    ensures var w' := Stored(w, l, RX_PORT_LIST, port);
            Layout(w') && w'[CountAt(l)] == RX_PORT_LIST + 1 && w'[CountAt(l + 1)] == port
  {
  }

  /** A list that reaches the next enabled lcore's count is the first one's, and its 17th port, at
      least 16 as a number, is that count from now on. */
  lemma StoreSpills(cfg: Config, w: seq<nat>, conf: seq<seq<nat>>, ps: seq<nat>, q: nat, rx: nat, port: nat)
    requires Coupled(cfg, w, conf) && Placed(cfg, conf, ps, q, rx) && Enabled(cfg, rx) && Enabled(cfg, rx + 1)
    requires RX_PORT_LIST <= |conf[rx]| != q && |ps| < MAX_PORTS && port >= |ps|
    ensures w[CountAt(rx)] == RX_PORT_LIST && CountAt(rx) + 1 + RX_PORT_LIST < |w|
    ensures Spilled(cfg, Stored(w, rx, RX_PORT_LIST, port), rx)
    ensures forall all: seq<nat> :: |all| > |ps| ==> !Safe(cfg, all, q)
  {
    hide Lcores, Times, Share, Reads, Placed, Stored;
    assert rx + 1 < MAX_LCORES && |conf[rx]| == RX_PORT_LIST;
    ReadsCount(w, rx, conf[rx]);
    SixteenIsFirst(cfg, conf, ps, q, rx);
    SeventeenthStored(w, rx, port);
    LcoresAre(cfg, rx);
    LcoresBefore(cfg, rx + 1);
    assert Lcores(cfg, rx + 1) == [rx];
  }

  lemma ReadsCount(w: seq<nat>, l: nat, list: seq<nat>)
    requires Reads(w, l, list)
    ensures CountAt(l) < |w| && w[CountAt(l)] == |list|
  {
  }

  // ---------- The allocation ----------

  /** Counts stay small enough for every store to be inside the words considered. */
  ghost predicate Bounded(w: seq<nat>, b: nat) {
    Layout(w) && forall l :: 0 <= l < MAX_LCORES ==> w[CountAt(l)] <= b
  }

  lemma StoreBounded(w: seq<nat>, b: nat, rx: nat, port: nat)
    requires Bounded(w, b) && rx < MAX_LCORES && port < MAX_PORTS <= b + 1 <= BEHIND
    ensures CountAt(rx) + 1 + w[CountAt(rx)] < |w|
    ensures Bounded(Stored(w, rx, w[CountAt(rx)], port), b + 1)
  {
  }

  /** The search of the allocation loop for an lcore with room, from the current one on. */
  method FindRoom(cfg: Config, w: array<nat>, q: nat, from: nat, ghost conf: seq<seq<nat>>, ghost ps: seq<nat>,
                  ghost apart: bool) returns (ok: bool, rx: nat)
    requires Layout(w[..]) && from < MAX_LCORES
    requires apart ==> Coupled(cfg, w[..], conf) && Placed(cfg, conf, ps, q, from)
    ensures ok ==> from <= rx < MAX_LCORES && Enabled(cfg, rx) && w[CountAt(rx)] != q
    ensures apart && ok ==> Placed(cfg, conf, ps, q, rx) && w[CountAt(rx)] == |conf[rx]|
    ensures apart && !ok ==> |ps| == Times(|Lcores(cfg, MAX_LCORES)|, q)
  {
    hide Placed, Lcores, Times, Reads;
    rx := from;
    while !Enabled(cfg, rx) || w[CountAt(rx)] == q
      invariant from <= rx < MAX_LCORES && (apart ==> Placed(cfg, conf, ps, q, rx))
      decreases MAX_LCORES - rx
    {
      if apart {
        if Enabled(cfg, rx) { ReadsCount(w[..], rx, conf[rx]); }
        PassOver(cfg, conf, ps, q, rx);
      }
      rx := rx + 1;
      if rx >= MAX_LCORES { return false, rx; }
    }
    if apart { ReadsCount(w[..], rx, conf[rx]); }
    ok := true;
  }

  /** All that holds between two ports: as long as the lists are apart they are placed as they
      should be, and once they are not, the allocation is not safe and the spill stays. */
  ghost predicate Going(cfg: Config, w: seq<nat>, conf: seq<seq<nat>>, ps: seq<nat>, all: seq<nat>, q: nat, rx: nat,
                        apart: bool) {
    if apart then
      Coupled(cfg, w, conf) && Placed(cfg, conf, ps, q, rx)
    else
      !Safe(cfg, all, q) && Spilled(cfg, w, rx)
  }

  /** One more port. */
  lemma PlaceNext(cfg: Config, w: seq<nat>, conf: seq<seq<nat>>, ps: seq<nat>, all: seq<nat>, q: nat, rx: nat,
                  port: nat, apart: bool) returns (conf': seq<seq<nat>>, apart': bool)
    requires Going(cfg, w, conf, ps, all, q, rx, apart) && Layout(w) && rx < MAX_LCORES
    requires Enabled(cfg, rx) && w[CountAt(rx)] != q && (apart ==> |conf| == MAX_LCORES && w[CountAt(rx)] == |conf[rx]|)
    requires |ps| < |all| <= MAX_PORTS && port >= |ps| && CountAt(rx) + 1 + w[CountAt(rx)] < |w|
    ensures Going(cfg, Stored(w, rx, w[CountAt(rx)], port), conf', ps + [port], all, q, rx, apart')
  {
    hide Coupled, Spilled, Safe, Enabled;
    conf', apart' := conf, false;
    if !apart {
      StoreSpilled(cfg, w, rx, port);
    } else if |conf[rx]| < RX_PORT_LIST || !Enabled(cfg, rx + 1) {
      conf', apart' := conf[rx := conf[rx] + [port]], true;
      PlacedTail(cfg, conf, ps, q, rx);
      hide Placed;
      StoreCouples(cfg, w, conf, rx, port);
      PlaceOne(cfg, conf, ps, q, rx, port);
    } else {
      hide Placed;
      StoreSpills(cfg, w, conf, ps, q, rx, port);
    }
  }

  method StorePort(w: array<nat>, rx: nat, port: nat)
    requires CountAt(rx) < w.Length && CountAt(rx) + 1 + w[CountAt(rx)] < w.Length
    modifies w
    ensures w[..] == Stored(old(w[..]), rx, old(w[CountAt(rx)]), port)
  {
    w[CountAt(rx) + 1 + w[CountAt(rx)]] := port;
    w[CountAt(rx)] := w[CountAt(rx)] + 1;
  }

  /** One pass of the loop, for an enabled port. */
  method PlacePort(cfg: Config, w: array<nat>, q: nat, from: nat, port: nat, ghost conf: seq<seq<nat>>,
                   ghost ps: seq<nat>, ghost all: seq<nat>, ghost apart: bool)
    returns (ok: bool, rx: nat, ghost conf': seq<seq<nat>>, ghost apart': bool)
    requires from < MAX_LCORES && Layout(w[..]) && Bounded(w[..], MAX_PORTS - 1 + port)
    requires Going(cfg, w[..], conf, ps, all, q, from, apart) && |ps| < |all| <= MAX_PORTS && |ps| <= port < MAX_PORTS
    modifies w
    ensures !ok ==> w[..] == old(w[..]) && (Safe(cfg, all, q) <==> Keeps(cfg, all, q, false, w[..]))
    ensures ok ==> rx < MAX_LCORES && Layout(w[..]) && Bounded(w[..], MAX_PORTS + port)
    ensures ok ==> Going(cfg, w[..], conf', ps + [port], all, q, rx, apart')
  {
    hide Going, Placed, Enabled, Lcores, Times, Coupled, Spilled, Safe, Keeps, Bounded, Stored;
    conf', apart' := conf, apart;
    GoingApart(cfg, w[..], conf, ps, all, q, from, apart);
    ok, rx := FindRoom(cfg, w, q, from, conf, ps, apart);
    if !ok {
      GoingFails(cfg, w[..], conf, ps, all, q, from, apart);
      return;
    }
    GoingOn(cfg, w[..], conf, ps, all, q, from, rx, apart);
    StoreBounded(w[..], MAX_PORTS - 1 + port, rx, port);
    conf', apart' := PlaceNext(cfg, w[..], conf, ps, all, q, rx, port, apart);
    StorePort(w, rx, port);
  }

  /** The allocation loop of main, for at most q ports to an lcore: it does what it is for if and
      only if the allocation is safe. */
  method AssignRx(mask: nat, nbPorts: nat, cfg: Config, q: nat) returns (ok: bool, w: array<nat>)
    requires nbPorts <= MAX_PORTS
    ensures fresh(w) && Layout(w[..])
    ensures Safe(cfg, Ports(mask, nbPorts), q) <==> Keeps(cfg, Ports(mask, nbPorts), q, ok, w[..])
  {
    hide Going, Placed, Ports, InMask, Enabled, Lcores, Times, Coupled, Spilled, Safe, Keeps, Bounded, Stored;
    w := new nat[STRUCT * MAX_LCORES + BEHIND](i => 0);
    ok := true;
    var rx: nat := 0;
    ghost var all: seq<nat>, conf: seq<seq<nat>>, apart := Ports(mask, nbPorts), seq(MAX_LCORES, i => []), true;
    PortsNext(mask, 0);
    NothingYet(cfg, w[..], conf, all, q);
    for port: nat := 0 to nbPorts
      invariant ok && rx < MAX_LCORES && Layout(w[..]) && Bounded(w[..], MAX_PORTS - 1 + port)
      invariant Going(cfg, w[..], conf, Ports(mask, port), all, q, rx, apart)
    {
      PortsNext(mask, port);
      if !InMask(mask, port) {
        BoundedMore(w[..], MAX_PORTS - 1 + port);
        continue;
      }
      PortsLess(mask, port, nbPorts);
      ok, rx, conf, apart := PlacePort(cfg, w, q, rx, port, conf, Ports(mask, port), all, apart);
      if !ok { return; }
    }
    PortsLess(mask, nbPorts, nbPorts);
    GoingEnds(cfg, w[..], conf, all, q, rx, apart);
  }

  lemma NothingYet(cfg: Config, w: seq<nat>, conf: seq<seq<nat>>, all: seq<nat>, q: nat)
    requires Layout(w) && |conf| == MAX_LCORES && forall l :: 0 <= l < MAX_LCORES ==> conf[l] == []
    requires forall j :: 0 <= j < |w| ==> w[j] == 0
    ensures Going(cfg, w, conf, [], all, q, 0, true) && Bounded(w, MAX_PORTS - 1)
  {
  }

  lemma BoundedMore(w: seq<nat>, b: nat)
    requires Bounded(w, b)
    ensures Bounded(w, b + 1)
  {
  }

  lemma PortsFew(mask: nat, n: nat)
    ensures |Ports(mask, n)| <= n
  {
    BelowIs(n, (p: nat) => InMask(mask, p));
  }

  lemma PortsLess(mask: nat, port: nat, n: nat)
    requires port <= n <= MAX_PORTS
    ensures |Ports(mask, n)| <= MAX_PORTS && |Ports(mask, port)| <= port
    ensures port < n && InMask(mask, port) ==> |Ports(mask, port)| < |Ports(mask, n)|
  {
    PortsFew(mask, n);
    PortsFew(mask, port);
    hide Ports, InMask;
    PortsNext(mask, port);
    if port < n { PortsGrow(mask, port + 1, n); }
  }

  lemma GoingApart(cfg: Config, w: seq<nat>, conf: seq<seq<nat>>, ps: seq<nat>, all: seq<nat>, q: nat, rx: nat,
                   apart: bool)
    requires Going(cfg, w, conf, ps, all, q, rx, apart)
    ensures apart ==> Coupled(cfg, w, conf) && Placed(cfg, conf, ps, q, rx) && |conf| == MAX_LCORES
  {
  }

  lemma GoingOn(cfg: Config, w: seq<nat>, conf: seq<seq<nat>>, ps: seq<nat>, all: seq<nat>, q: nat, from: nat, rx: nat,
                apart: bool)
    requires Going(cfg, w, conf, ps, all, q, from, apart) && from <= rx < MAX_LCORES
    requires apart ==> Placed(cfg, conf, ps, q, rx)
    ensures Going(cfg, w, conf, ps, all, q, rx, apart)
  {
  }

  lemma GoingFails(cfg: Config, w: seq<nat>, conf: seq<seq<nat>>, ps: seq<nat>, all: seq<nat>, q: nat, rx: nat,
                   apart: bool)
    requires Going(cfg, w, conf, ps, all, q, rx, apart) && |ps| < |all| <= MAX_PORTS
    requires apart ==> |ps| == Times(|Lcores(cfg, MAX_LCORES)|, q)
    ensures Safe(cfg, all, q) <==> Keeps(cfg, all, q, false, w)
  {
    hide Times, Lcores, Coupled, Placed, Spilled, Safe;
    if !Safe(cfg, all, q) { UnsafeFits(cfg, all, q); }
  }

  lemma GoingEnds(cfg: Config, w: seq<nat>, conf: seq<seq<nat>>, all: seq<nat>, q: nat, rx: nat, apart: bool)
    requires Going(cfg, w, conf, all, all, q, rx, apart) && |all| <= MAX_PORTS
    ensures Safe(cfg, all, q) <==> Keeps(cfg, all, q, true, w)
  {
    hide Times, Lcores, Coupled, Placed, Spilled, Safe, Keeps;
    if apart {
      CoupledKeeps(cfg, w, conf, all, q, rx);
    } else {
      SpilledLoses(cfg, w, all, q, rx);
    }
  }

  // ---------- What the allocation means ----------

  ghost predicate HasList(w: seq<nat>, l: nat, q: nat) {
    exists list :: Reads(w, l, list) && |list| <= q
  }

  /** p is on the lists a and b of the enabled lcores l and l'. */
  ghost predicate OnBoth(cfg: Config, w: seq<nat>, l: nat, l': nat, a: seq<nat>, b: seq<nat>, p: nat) {
    Enabled(cfg, l) && Enabled(cfg, l') && Reads(w, l, a) && Reads(w, l', b) && p in a && p in b
  }

  /** Each enabled port is on the list of one enabled lcore and of no other, and no list has more
      than q. */
  lemma EachPortOnce(cfg: Config, w: seq<nat>, ps: seq<nat>, q: nat)
    requires Allocated(cfg, w, ps, q) && Rising(ps) && |ps| <= Times(|Lcores(cfg, MAX_LCORES)|, q)
    ensures forall l: nat :: Enabled(cfg, l) ==> HasList(w, l, q)
    ensures forall k :: 0 <= k < |ps| ==> OnSomeList(cfg, w, ps[k])
    ensures forall l: nat, l': nat, a, b, p :: OnBoth(cfg, w, l, l', a, b, p) ==> l == l'
  {
    hide Reads, Lcores, Share, Enabled, Rising;
    forall l: nat | Enabled(cfg, l) ensures HasList(w, l, q) {
      var i := ListAt(cfg, w, ps, q, l);
      ShareSize(ps, q, i);
    }
    forall k | 0 <= k < |ps| ensures OnSomeList(cfg, w, ps[k]) {
      var i := FindShare(k, q, |Lcores(cfg, MAX_LCORES)|);
      InShare(ps, q, i, k);
      LcoreOk(cfg, i);
      assert Reads(w, Lcores(cfg, MAX_LCORES)[i], Share(ps, q, i));
    }
    forall l: nat, l': nat, a, b, p | OnBoth(cfg, w, l, l', a, b, p) ensures l == l' {
      var i := ListAt(cfg, w, ps, q, l);
      var i' := ListAt(cfg, w, ps, q, l');
      ReadsOne(w, l, a, Share(ps, q, i));
      ReadsOne(w, l', b, Share(ps, q, i'));
      SharesApart(ps, q, i, i', p);
    }
  }

  ghost predicate OnSomeList(cfg: Config, w: seq<nat>, p: nat) {
    exists l: nat, list :: Enabled(cfg, l) && Reads(w, l, list) && p in list
  }

  lemma ListAt(cfg: Config, w: seq<nat>, ps: seq<nat>, q: nat, l: nat) returns (i: nat)
    requires Allocated(cfg, w, ps, q) && Enabled(cfg, l)
    ensures i < |Lcores(cfg, MAX_LCORES)| && Lcores(cfg, MAX_LCORES)[i] == l && Reads(w, l, Share(ps, q, i))
  {
    i := LcoreAt(cfg, l);
  }

  lemma ReadsOne(w: seq<nat>, l: nat, a: seq<nat>, b: seq<nat>)
    requires Reads(w, l, a) && Reads(w, l, b)
    ensures a == b
  {
  }

  lemma ShareSize(ps: seq<nat>, q: nat, i: nat)
    ensures |Share(ps, q, i)| <= q && |Share(ps, q, i)| <= |ps|
  {
  }

  lemma InShare(ps: seq<nat>, q: nat, i: nat, k: nat)
    requires k < |ps| && Times(i, q) <= k < Times(i, q) + q
    ensures ps[k] in Share(ps, q, i)
  {
    assert Share(ps, q, i)[k - Times(i, q)] == ps[k];
  }

  lemma LcoreAt(cfg: Config, l: nat) returns (i: nat)
    requires Enabled(cfg, l)
    ensures i < |Lcores(cfg, MAX_LCORES)| && Lcores(cfg, MAX_LCORES)[i] == l
  {
    LcoreFound(cfg, l);
    i :| 0 <= i < |Lcores(cfg, MAX_LCORES)| && Lcores(cfg, MAX_LCORES)[i] == l;
  }

  ghost predicate ListWithin(cfg: Config, w: seq<nat>, l: nat, list: seq<nat>) {
    Enabled(cfg, l) && Reads(w, l, list) ==> |list| <= RX_PORT_LIST
  }

  /** Every list keeps to its 16 entries exactly when q is at most 16, or at most 16 ports are
      enabled, or there is nothing to place them on. */
  lemma ListsFit(cfg: Config, w: seq<nat>, ps: seq<nat>, q: nat)
    requires Allocated(cfg, w, ps, q)
    ensures (forall l: nat, list :: ListWithin(cfg, w, l, list))
       <==> q <= RX_PORT_LIST || |ps| <= RX_PORT_LIST || Lcores(cfg, MAX_LCORES) == []
  {
    hide Lcores, Reads, Share;
    var ls := Lcores(cfg, MAX_LCORES);
    LcoresAre(cfg, MAX_LCORES);
    FirstShare(ps, q);
    if q > RX_PORT_LIST && |ps| > RX_PORT_LIST && ls != [] {
      assert Reads(w, ls[0], Share(ps, q, 0));
      assert !ListWithin(cfg, w, ls[0], Share(ps, q, 0));
    } else {
      forall l: nat, list ensures ListWithin(cfg, w, l, list) {
        if Enabled(cfg, l) && Reads(w, l, list) {
          var i := ListAt(cfg, w, ps, q, l);
          ReadsOne(w, l, list, Share(ps, q, i));
          ShareSize(ps, q, i);
        }
      }
    }
  }

  // ---------- An input that is not safe ----------

  function LowBits(k: nat): nat {
    Pow2Positive(k);
    Pow2(k) - 1
  }

  lemma {:induction false} LowBitsHave(k: nat, p: nat)
    requires p < k
    ensures InMask(LowBits(k), p)
  {
    Pow2Positive(k - 1);
    if p > 0 {
      Pow2Positive(p - 1);
      LowBitsHave(k - 1, p - 1);
      assert LowBits(k) / 2 == LowBits(k - 1) && Pow2(p) / 2 == Pow2(p - 1);
    }
  }

  lemma {:induction false} AllPorts(k: nat, n: nat)
    requires n <= k
    ensures |Ports(LowBits(k), n)| == n
  {
    hide LowBits, InMask;
    PortsNext(LowBits(k), 0);
    if n > 0 {
      AllPorts(k, n - 1);
      LowBitsHave(k, n - 1);
      PortsNext(LowBits(k), n - 1);
    }
  }

  lemma TwoEnabled()
    ensures var cfg := Config([true, true], 0);
            [0, 1] <= Lcores(cfg, MAX_LCORES) && Enabled(cfg, 0) && Enabled(cfg, 1)
  {
    var cfg := Config([true, true], 0);
    BelowNext(0, Kept(cfg, false));
    hide Lcores;
    LcoresAre(cfg, 0);
    LcoresAre(cfg, 1);
    LcoresAre(cfg, 2);
  }

  /** All 32 ports, lcores 0 and 1, and -q 20: there is room for 40 ports, and yet the allocation is
      not safe.  Port 16 becomes the count of lcore 1. */
  lemma TwentyEach()
    ensures var cfg, ps := Config([true, true], 0), Ports(LowBits(MAX_PORTS), MAX_PORTS);
            |ps| == 32 <= Times(|Lcores(cfg, MAX_LCORES)|, 20) && !Safe(cfg, ps, 20)
  {
    hide Ports, Lcores, Times, LowBits;
    var cfg, ps := Config([true, true], 0), Ports(LowBits(MAX_PORTS), MAX_PORTS);
    AllPorts(MAX_PORTS, MAX_PORTS);
    TwoEnabled();
    assert Lcores(cfg, MAX_LCORES)[0] == 0;
    UnsafeFits(cfg, ps, 20);
  }
}
