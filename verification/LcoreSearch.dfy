/** The search for the next lcore and the loops over lcores (src/ext/rte_lcore.c and
    src/dpdk/inlines.cr). */
module LcoreSearch {
  import opened Ascending
  import opened Bits
  import opened Limits

  /** The EAL configuration: which lcores have the role RTE, and the master. */
  datatype Config = Config(isRte: seq<bool>, master: nat)

  predicate Enabled(cfg: Config, i: nat) {
    i < MAX_LCORES && i < |cfg.isRte| && cfg.isRte[i]
  }

  predicate Eligible(cfg: Config, i: nat, skipMaster: bool) {
    Enabled(cfg, i) && !(skipMaster && i == cfg.master)
  }

  /** The d-th lcore after start, going round. */
  function Round(start: nat, d: nat): nat { (start + d) % MAX_LCORES }

  /** How far the nearest eligible lcore is, going round from i. */
  ghost function Distance(cfg: Config, i: nat, skipMaster: bool, bound: nat): (d: nat)
    requires exists k :: 0 <= k < bound && Eligible(cfg, Round(i, k), skipMaster)
    ensures d < bound && Eligible(cfg, Round(i, d), skipMaster)
    ensures forall k :: 0 <= k < d ==> !Eligible(cfg, Round(i, k), skipMaster)
    decreases bound
  {
    if exists k :: 0 <= k < bound - 1 && Eligible(cfg, Round(i, k), skipMaster)
    then Distance(cfg, i, skipMaster, bound - 1)
    else bound - 1
  }

  ghost predicate SomeEligible(cfg: Config, skipMaster: bool) {
    exists i :: 0 <= i < MAX_LCORES && Eligible(cfg, i, skipMaster)
  }

  lemma SomeAhead(cfg: Config, i: nat, skipMaster: bool)
    requires SomeEligible(cfg, skipMaster)
    ensures exists k :: 0 <= k < MAX_LCORES && Eligible(cfg, Round(i, k), skipMaster)
  {
    var e :| 0 <= e < MAX_LCORES && Eligible(cfg, e, skipMaster);
    var k := (e - i) % MAX_LCORES;
    assert Round(i, k) == e;
  }

  /** Without an eligible lcore no round of the wrapping loop is the last: what it goes on to is
      again a number the loop condition admits and no lcore it stops at. */
  lemma NeverStops(cfg: Config, i: nat, skipMaster: bool)
    requires !SomeEligible(cfg, skipMaster) && i < MAX_LCORES
    ensures !Eligible(cfg, i, skipMaster) && (i + 1) % MAX_LCORES < MAX_LCORES
  {
  }

  /** The first eligible lcore from start on, going round. */
  ghost predicate FirstFrom(cfg: Config, start: nat, i: nat, skipMaster: bool) {
    exists d :: 0 <= d < MAX_LCORES && i == Round(start, d) && FirstAt(cfg, start, d, skipMaster)
  }

  ghost predicate FirstAt(cfg: Config, start: nat, d: nat, skipMaster: bool) {
    Eligible(cfg, Round(start, d), skipMaster) && forall k :: 0 <= k < d ==> !Eligible(cfg, Round(start, k), skipMaster)
  }

  lemma Nearest(cfg: Config, start: nat, skipMaster: bool) returns (d: nat)
    requires SomeEligible(cfg, skipMaster)
    ensures d < MAX_LCORES && FirstAt(cfg, start, d, skipMaster)
  {
    SomeAhead(cfg, start, skipMaster);
    d := Distance(cfg, start, skipMaster, MAX_LCORES);
  }

  /** rte_get_next_lcore with wrap set.  It ends because the distance to the nearest eligible
      lcore shrinks; without one it would not. */
  method NextWrapping(cfg: Config, from: nat, skipMaster: bool) returns (i: nat)
    requires from < U32 && SomeEligible(cfg, skipMaster)
    ensures FirstFrom(cfg, (from + 1) % U32, i, skipMaster)
  {
    hide SomeEligible, Enabled;
    i := (from + 1) % U32;
    ghost var start := i;
    ghost var near := Nearest(cfg, start, skipMaster);
    ghost var d := 0;
    i := i % MAX_LCORES;
    while i < MAX_LCORES
      invariant d <= near && i == Round(start, d) && i < MAX_LCORES
      decreases near - d
    {
      if !Enabled(cfg, i) || (skipMaster && i == cfg.master) {
        assert d != near;
        RoundNext(start, d);
        i := i + 1;
        i := i % MAX_LCORES;
        d := d + 1;
        continue;
      }
      assert d == near by { assert Eligible(cfg, Round(start, d), skipMaster); }
      break;
    }
  }

  lemma RoundNext(start: nat, d: nat)
    ensures Round(start, d + 1) == (Round(start, d) + 1) % MAX_LCORES
  {
  }

  /** rte_get_next_lcore without wrap: the least eligible lcore above from, or the first number
      that is no lcore. */
  method Next(cfg: Config, from: nat, skipMaster: bool) returns (i: nat)
    requires from < U32
    ensures (from + 1) % U32 <= i
    ensures i < MAX_LCORES ==> Eligible(cfg, i, skipMaster)
    ensures forall k :: (from + 1) % U32 <= k < i ==> !Eligible(cfg, k, skipMaster)
    ensures (from + 1) % U32 <= MAX_LCORES ==> i <= MAX_LCORES
  {
    i := (from + 1) % U32;
    while i < MAX_LCORES
      invariant (from + 1) % U32 <= i
      invariant (from + 1) % U32 <= MAX_LCORES ==> i <= MAX_LCORES
      invariant forall k :: (from + 1) % U32 <= k < i ==> !Eligible(cfg, k, skipMaster)
    {
      if !Enabled(cfg, i) || (skipMaster && i == cfg.master) {
        i := i + 1;
        continue;
      }
      break;
    }
  }

  /** The predicate of the eligible lcores. */
  function Kept(cfg: Config, skipMaster: bool): nat -> bool {
    (i: nat) => Eligible(cfg, i, skipMaster)
  }

  lemma KeptIs(cfg: Config, skipMaster: bool, i: nat)
    ensures Kept(cfg, skipMaster)(i) <==>
              i < MAX_LCORES && i < |cfg.isRte| && cfg.isRte[i] && !(skipMaster && i == cfg.master)
  {
  }

  lemma KeptAll(cfg: Config, skipMaster: bool)
    ensures var all := Below(MAX_LCORES, Kept(cfg, skipMaster));
            && (forall i: nat :: i in all <==>
                  i < MAX_LCORES && i < |cfg.isRte| && cfg.isRte[i] && !(skipMaster && i == cfg.master))
            && (forall a, b :: 0 <= a < b < |all| ==> all[a] < all[b])
  {
    BelowIs(MAX_LCORES, Kept(cfg, skipMaster));
    BelowAscends(MAX_LCORES, Kept(cfg, skipMaster));
    hide Below, Kept;
    var all := Below(MAX_LCORES, Kept(cfg, skipMaster));
    forall i: nat
      ensures i in all <==> i < MAX_LCORES && i < |cfg.isRte| && cfg.isRte[i] && !(skipMaster && i == cfg.master)
    {
      KeptIs(cfg, skipMaster, i);
    }
  }

  /** rte_lcore_foreach_slave, and RTE_LCORE_FOREACH when the master is not skipped: the lcores
      yielded, in order. */
  method Foreach(cfg: Config, skipMaster: bool) returns (visited: seq<nat>)
    ensures forall i: nat :: i in visited <==>
              i < MAX_LCORES && i < |cfg.isRte| && cfg.isRte[i] && !(skipMaster && i == cfg.master)
    ensures forall a, b :: 0 <= a < b < |visited| ==> visited[a] < visited[b]
    ensures visited == Below(MAX_LCORES, Kept(cfg, skipMaster))
  {
    KeptAll(cfg, skipMaster);
    hide Below, Eligible;
    visited := [];
    BelowNext(0, Kept(cfg, skipMaster));
    var i := Next(cfg, 0xFFFF_FFFF, skipMaster);
    BelowGap(0, i, Kept(cfg, skipMaster));
    while i < MAX_LCORES
      invariant i <= MAX_LCORES && visited == Below(i, Kept(cfg, skipMaster))
      invariant i < MAX_LCORES ==> Eligible(cfg, i, skipMaster)
      decreases MAX_LCORES - i
    {
      visited := visited + [i];
      BelowNext(i, Kept(cfg, skipMaster));
      var j := Next(cfg, i, skipMaster);
      BelowGap(i + 1, j, Kept(cfg, skipMaster));
      i := j;
    }
  }

  /** The limit of rte_lcore_foreach_worker: nil, or any integer. */
  datatype Limit = NoLimit | AtMost(n: int)

  /** rte_lcore_foreach_worker: it numbers the lcores it yields from 0, and stops only after the
      number has passed the limit.  So it yields one lcore more than the limit says, and one for a
      limit below zero, as long as there are so many. */
  method ForeachWorker(cfg: Config, limit: Limit) returns (visited: seq<nat>)
    ensures visited <= Below(MAX_LCORES, Kept(cfg, true))
    ensures limit.NoLimit? ==> visited == Below(MAX_LCORES, Kept(cfg, true))
    ensures limit.AtMost? && limit.n >= 0 ==>
              |visited| == limit.n + 1 || (|visited| <= limit.n && visited == Below(MAX_LCORES, Kept(cfg, true)))
    ensures limit.AtMost? && limit.n < 0 ==> |visited| == 1 || Below(MAX_LCORES, Kept(cfg, true)) == []
  {
    hide Below, Eligible;
    visited := [];
    BelowNext(0, Kept(cfg, true));
    var workerId := 0;
    var i := Next(cfg, 0xFFFF_FFFF, true);
    BelowGap(0, i, Kept(cfg, true));
    while i < MAX_LCORES
      invariant i <= MAX_LCORES && visited == Below(i, Kept(cfg, true)) && workerId == |visited|
      invariant limit.AtMost? ==> workerId == 0 || workerId <= limit.n
      invariant i < MAX_LCORES ==> Eligible(cfg, i, true)
      decreases MAX_LCORES - i
    {
      visited := visited + [i];
      BelowNext(i, Kept(cfg, true));
      var j := Next(cfg, i, true);
      BelowGap(i + 1, j, Kept(cfg, true));
      i := j;
      workerId := workerId + 1;
      if limit.AtMost? && workerId > limit.n {
        BelowPrefix(i, MAX_LCORES, Kept(cfg, true));
        break;
      }
    }
  }
}
