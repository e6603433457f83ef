/** The configuration of the load balancer (examples/load_balancer/config.cr): its arguments, what
    the fixed-size arrays have room for, and what its checks accept. */
module LbConfig {
  import opened Ascending
  import opened Bits
  import opened Limits

  const MAX_QUEUES := 128
  const PER_LCORE := 16
  const MAX_RULES := 8

  datatype LcoreType = Disabled | Io | Worker

  datatype Queue = Queue(port: nat, queue: nat)

  datatype Result = Ok | Fail(message: string)

  /** A rule of longest-prefix matching: the address, the depth and the output interface. */
  datatype Rule = Rule(ip: nat, depth: nat, ifOut: nat)

  predicate IsRuleEntry(r: Rule) { r.ip < U32 && r.depth < 256 && r.ifOut < 256 }

  datatype Config = Config(
    types: seq<LcoreType>, rxQueues: seq<seq<Queue>>, nicPorts: seq<seq<nat>>,
    rxMask: seq<seq<bool>>, txMask: seq<bool>, rules: seq<Rule>)

  predicate Sized(c: Config) {
    && |c.types| == |c.rxQueues| == |c.nicPorts| == MAX_LCORES
    && |c.rxMask| == |c.txMask| == MAX_PORTS && |c.rules| <= MAX_RULES
    && (forall p :: 0 <= p < MAX_PORTS ==> |c.rxMask[p]| == MAX_QUEUES)
    && (forall l :: 0 <= l < MAX_LCORES ==> |c.rxQueues[l]| <= PER_LCORE && |c.nicPorts[l]| <= PER_LCORE)
    && (forall l, p :: 0 <= l < MAX_LCORES && p in c.nicPorts[l] ==> p < MAX_PORTS)
    && (forall l, q :: 0 <= l < MAX_LCORES && q in c.rxQueues[l] ==> q.port < MAX_PORTS && q.queue < MAX_QUEUES)
  }

  const UNSET := Config(
    seq(MAX_LCORES, i => Disabled), seq(MAX_LCORES, i => []), seq(MAX_LCORES, i => []),
    seq(MAX_PORTS, i => seq(MAX_QUEUES, k => false)), seq(MAX_PORTS, i => false), [])

  /** The masks say what the lists of the lcores say. */
  ghost predicate Consistent(c: Config)
    requires Sized(c)
  {
    && (forall p :: 0 <= p < MAX_PORTS ==> (c.txMask[p] <==> exists l :: 0 <= l < MAX_LCORES && p in c.nicPorts[l]))
    && (forall p, q :: 0 <= p < MAX_PORTS && 0 <= q < MAX_QUEUES ==>
          (c.rxMask[p][q] <==> exists l :: 0 <= l < MAX_LCORES && Queue(p, q) in c.rxQueues[l]))
  }

  // ---------- Arguments ----------

  /** One entry of --w. */
  function ParseW(c: Config, lcore: nat): Config
    requires Sized(c) && lcore < MAX_LCORES
  {
    c.(types := c.types[lcore := Worker])
  }

  /** One entry of --rx. */
  function ParseRx(c: Config, port: nat, queue: nat, lcore: nat): Config
    requires Sized(c) && port < MAX_PORTS && queue < MAX_QUEUES && lcore < MAX_LCORES
  {
    c.(rxMask := c.rxMask[port := c.rxMask[port][queue := true]],
       types := c.types[lcore := Io],
       rxQueues := c.rxQueues[lcore := c.rxQueues[lcore] + [Queue(port, queue)]])
  }

  /** One entry of --tx. */
  function ParseTx(c: Config, port: nat, lcore: nat): Config
    requires Sized(c) && port < MAX_PORTS && lcore < MAX_LCORES
  {
    c.(txMask := c.txMask[port := true],
       types := c.types[lcore := Io],
       nicPorts := c.nicPorts[lcore := c.nicPorts[lcore] + [port]])
  }

  lemma UnsetOk()
    ensures Sized(UNSET) && Consistent(UNSET)
  {
  }

  /** One parsed entry.  Depth and output interface of a rule are 8-bit numbers. */
  datatype Arg =
    | ArgW(lcore: nat)
    | ArgRx(port: nat, queue: nat, lcore: nat)
    | ArgTx(port: nat, lcore: nat)
    | ArgLpm(rule: Rule)

  /** The numbers of an entry index into the fixed-size arrays; the parser does not check it. */
  predicate InRange(a: Arg) {
    match a
    case ArgW(lcore) => lcore < MAX_LCORES
    case ArgRx(port, queue, lcore) => port < MAX_PORTS && queue < MAX_QUEUES && lcore < MAX_LCORES
    case ArgTx(port, lcore) => port < MAX_PORTS && lcore < MAX_LCORES
    case ArgLpm(rule) => IsRuleEntry(rule)
  }

  /** And there is room for one more; the parser does not check this either. */
  predicate Fits(c: Config, a: Arg)
    requires Sized(c)
  {
    InRange(a) &&
    match a
    case ArgW(_) => true
    case ArgRx(_, _, lcore) => |c.rxQueues[lcore]| < PER_LCORE
    case ArgTx(_, lcore) => |c.nicPorts[lcore]| < PER_LCORE
    case ArgLpm(_) => |c.rules| < MAX_RULES
  }

  function ParseOne(c: Config, a: Arg): Config
    requires Sized(c) && Fits(c, a)
  {
    match a
    case ArgW(lcore) => ParseW(c, lcore)
    case ArgRx(port, queue, lcore) => ParseRx(c, port, queue, lcore)
    case ArgTx(port, lcore) => ParseTx(c, port, lcore)
    case ArgLpm(rule) => c.(rules := c.rules + [rule])
  }

  ghost predicate Parses(c: Config, args: seq<Arg>, d: Config)
    decreases |args|
  {
    if args == [] then c == d
    else Sized(c) && Fits(c, args[0]) && Parses(ParseOne(c, args[0]), args[1..], d)
  }

  /** Entries in any number and order keep the masks and the lists of the lcores consistent. */
  lemma {:induction false} ParseKeeps(c: Config, args: seq<Arg>, d: Config)
    requires Sized(c) && Consistent(c) && Parses(c, args, d)
    ensures Sized(d) && Consistent(d)
    decreases |args|
  {
    if args != [] {
      match args[0] {
        case ArgRx(port, queue, lcore) => RxKeeps(c, port, queue, lcore);
        case ArgTx(port, lcore) => TxKeeps(c, port, lcore);
        case _ =>
      }
      ParseKeeps(ParseOne(c, args[0]), args[1..], d);
    }
  }

  lemma RxKeeps(c: Config, port: nat, queue: nat, lcore: nat)
    requires Sized(c) && Consistent(c) && port < MAX_PORTS && queue < MAX_QUEUES && lcore < MAX_LCORES
    requires |c.rxQueues[lcore]| < PER_LCORE
    ensures Sized(ParseRx(c, port, queue, lcore)) && Consistent(ParseRx(c, port, queue, lcore))
  {
    var d := ParseRx(c, port, queue, lcore);
    forall p, q | 0 <= p < MAX_PORTS && 0 <= q < MAX_QUEUES
      ensures d.rxMask[p][q] <==> exists l :: 0 <= l < MAX_LCORES && Queue(p, q) in d.rxQueues[l]
    {
      if c.rxMask[p][q] {
        var l :| 0 <= l < MAX_LCORES && Queue(p, q) in c.rxQueues[l];
        assert Queue(p, q) in d.rxQueues[l];
      }
      if p == port && q == queue {
        assert Queue(p, q) in d.rxQueues[lcore];
      }
    }
  }

  lemma TxKeeps(c: Config, port: nat, lcore: nat)
    requires Sized(c) && Consistent(c) && port < MAX_PORTS && lcore < MAX_LCORES
    requires |c.nicPorts[lcore]| < PER_LCORE
    ensures Sized(ParseTx(c, port, lcore)) && Consistent(ParseTx(c, port, lcore))
  {
    var d := ParseTx(c, port, lcore);
    forall p | 0 <= p < MAX_PORTS
      ensures d.txMask[p] <==> exists l :: 0 <= l < MAX_LCORES && p in d.nicPorts[l]
    {
      if c.txMask[p] {
        var l :| 0 <= l < MAX_LCORES && p in c.nicPorts[l];
        assert p in d.nicPorts[l];
      }
      if p == port {
        assert p in d.nicPorts[lcore];
      }
    }
  }

  // ---------- What the arrays have room for ----------

  function Count(args: seq<Arg>, p: Arg -> bool): nat {
    if args == [] then 0 else (if p(args[0]) then 1 else 0) + Count(args[1..], p)
  }

  function RxTo(l: nat): Arg -> bool { (a: Arg) => a.ArgRx? && a.lcore == l }
  function TxTo(l: nat): Arg -> bool { (a: Arg) => a.ArgTx? && a.lcore == l }
  function IsRule(): Arg -> bool { (a: Arg) => a.ArgLpm? }

  /** Added to c the entries stay in range and leave no lcore with more than 16 receive queues or
      16 ports, and no more than 8 rules. */
  ghost predicate Roomy(c: Config, args: seq<Arg>)
    requires Sized(c)
  {
    && (forall k :: 0 <= k < |args| ==> InRange(args[k]))
    && (forall l :: 0 <= l < MAX_LCORES ==> |c.rxQueues[l]| + Count(args, RxTo(l)) <= PER_LCORE)
    && (forall l :: 0 <= l < MAX_LCORES ==> |c.nicPorts[l]| + Count(args, TxTo(l)) <= PER_LCORE)
    && |c.rules| + Count(args, IsRule()) <= MAX_RULES
  }

  lemma OneSized(c: Config, a: Arg)
    requires Sized(c) && Fits(c, a)
    ensures Sized(ParseOne(c, a))
  {
  }

  lemma RoomyStep(c: Config, args: seq<Arg>)
    requires Sized(c) && args != [] && Fits(c, args[0]) && Sized(ParseOne(c, args[0]))
    ensures Roomy(c, args) <==> Roomy(ParseOne(c, args[0]), args[1..])
  {
    var d := ParseOne(c, args[0]);
    forall l | 0 <= l < MAX_LCORES
      ensures |c.rxQueues[l]| + Count(args, RxTo(l)) == |d.rxQueues[l]| + Count(args[1..], RxTo(l))
      ensures |c.nicPorts[l]| + Count(args, TxTo(l)) == |d.nicPorts[l]| + Count(args[1..], TxTo(l))
    {
    }
    assert |c.rules| + Count(args, IsRule()) == |d.rules| + Count(args[1..], IsRule());
    assert forall k :: 0 <= k < |args| - 1 ==> args[k + 1] == args[1..][k];
  }

  lemma RoomyFits(c: Config, args: seq<Arg>)
    requires Sized(c) && args != [] && Roomy(c, args)
    ensures Fits(c, args[0])
  {
    assert InRange(args[0]);
    match args[0] {
      case ArgRx(_, _, lcore) => assert Count(args, RxTo(lcore)) >= 1;
      case ArgTx(_, lcore) => assert Count(args, TxTo(lcore)) >= 1;
      case ArgLpm(_) => assert Count(args, IsRule()) >= 1;
      case _ =>
    }
  }

  lemma {:induction false} ParsedWasRoomy(c: Config, args: seq<Arg>, d: Config)
    requires Sized(c) && Parses(c, args, d)
    ensures Roomy(c, args)
    decreases |args|
  {
    if args != [] {
      OneSized(c, args[0]);
      ParsedWasRoomy(ParseOne(c, args[0]), args[1..], d);
      RoomyStep(c, args);
    }
  }

  lemma {:induction false} RoomyParses(c: Config, args: seq<Arg>) returns (d: Config)
    requires Sized(c) && Roomy(c, args)
    ensures Parses(c, args, d)
    decreases |args|
  {
    if args == [] {
      d := c;
    } else {
      RoomyFits(c, args);
      OneSized(c, args[0]);
      RoomyStep(c, args);
      d := RoomyParses(ParseOne(c, args[0]), args[1..]);
    }
  }

  /** Every store of the parser stays inside its array if and only if the entries leave room. */
  lemma ParsesExactly(c: Config, args: seq<Arg>)
    requires Sized(c)
    ensures (exists d :: Parses(c, args, d)) <==> Roomy(c, args)
  {
    hide Sized, Roomy;
    if Roomy(c, args) {
      var d := RoomyParses(c, args);
      assert Parses(c, args, d);
    } else {
      forall d ensures !Parses(c, args, d) {
        if Parses(c, args, d) { ParsedWasRoomy(c, args, d); }
      }
    }
  }

  // ---------- What the parsed configuration says ----------

  predicate Names(a: Arg, l: nat) { !a.ArgLpm? && a.lcore == l }

  /** Entry k is the last one that names lcore l. */
  ghost predicate LastNamed(args: seq<Arg>, l: nat, k: nat) {
    k < |args| && Names(args[k], l) && forall j :: k < j < |args| ==> !Names(args[j], l)
  }

  /** The lists of one lcore hold what they did before and what the entries add. */
  ghost predicate ListsSaid(queues: seq<Queue>, ports: seq<nat>, args: seq<Arg>, queues': seq<Queue>, ports': seq<nat>,
                            l: nat) {
    && (forall q :: q in queues' <==> q in queues || ArgRx(q.port, q.queue, l) in args)
    && (forall p :: p in ports' <==> p in ports || ArgTx(p, l) in args)
    && |queues'| == |queues| + Count(args, RxTo(l)) && |ports'| == |ports| + Count(args, TxTo(l))
  }

  /** The last entry that names an lcore says what it is. */
  ghost predicate TypeSaid(was: LcoreType, args: seq<Arg>, now: LcoreType, l: nat) {
    && (forall k: nat :: LastNamed(args, l, k) ==> now == if args[k].ArgW? then Worker else Io)
    && ((forall k :: 0 <= k < |args| ==> !Names(args[k], l)) ==> now == was)
  }

  lemma ListsStep(queues: seq<Queue>, ports: seq<nat>, args: seq<Arg>, mid: seq<Queue>, between: seq<nat>,
                  queues': seq<Queue>, ports': seq<nat>, l: nat)
    requires args != [] && ListsSaid(mid, between, args[1..], queues', ports', l)
    requires mid == queues + if RxTo(l)(args[0]) then [Queue(args[0].port, args[0].queue)] else []
    requires between == ports + if TxTo(l)(args[0]) then [args[0].port] else []
    ensures ListsSaid(queues, ports, args, queues', ports', l)
  {
    var a, rest := args[0], args[1..];
    assert args == [a] + rest;
    assert forall q :: q in mid <==> q in queues || ArgRx(q.port, q.queue, l) == a;
    assert forall p :: p in between <==> p in ports || ArgTx(p, l) == a;
  }

  lemma TypeStep(was: LcoreType, args: seq<Arg>, mid: LcoreType, now: LcoreType, l: nat)
    requires args != [] && TypeSaid(mid, args[1..], now, l)
    requires mid == if !Names(args[0], l) then was else if args[0].ArgW? then Worker else Io
    ensures TypeSaid(was, args, now, l)
  {
    var rest := args[1..];
    assert forall j :: 0 <= j < |rest| ==> rest[j] == args[j + 1];
    forall k: nat | LastNamed(args, l, k) ensures now == if args[k].ArgW? then Worker else Io {
      if k > 0 { assert LastNamed(rest, l, k - 1); }
    }
    if forall k :: 0 <= k < |args| ==> !Names(args[k], l) {
      assert !Names(args[0], l);
    }
  }

  /** What one entry does to an lcore. */
  lemma OneSays(c: Config, a: Arg, l: nat)
    requires Sized(c) && Fits(c, a) && l < MAX_LCORES
    ensures var d := ParseOne(c, a);
            && |d.types| == |d.rxQueues| == |d.nicPorts| == MAX_LCORES
            && d.rxQueues[l] == c.rxQueues[l] + (if RxTo(l)(a) then [Queue(a.port, a.queue)] else [])
            && d.nicPorts[l] == c.nicPorts[l] + (if TxTo(l)(a) then [a.port] else [])
            && d.types[l] == if !Names(a, l) then c.types[l] else if a.ArgW? then Worker else Io
  {
  }

  lemma LengthsOf(c: Config)
    requires Sized(c)
    ensures |c.types| == |c.rxQueues| == |c.nicPorts| == MAX_LCORES
  {
  }

  lemma {:induction false} ParsedFrom(c: Config, args: seq<Arg>, d: Config, l: nat)
    requires Sized(c) && Parses(c, args, d) && l < MAX_LCORES
    ensures Sized(d) && |d.types| == |d.rxQueues| == |d.nicPorts| == MAX_LCORES
    ensures |c.types| == |c.rxQueues| == |c.nicPorts| == MAX_LCORES
    ensures ListsSaid(c.rxQueues[l], c.nicPorts[l], args, d.rxQueues[l], d.nicPorts[l], l)
    ensures TypeSaid(c.types[l], args, d.types[l], l)
    decreases |args|
  {
    LengthsOf(c);
    hide ListsSaid, TypeSaid, Sized, Fits, ParseOne;
    if args == [] {
      SaysNothing(c.rxQueues[l], c.nicPorts[l], c.types[l], l);
    } else {
      OneSized(c, args[0]);
      var c' := ParseOne(c, args[0]);
      ParsedFrom(c', args[1..], d, l);
      OneSays(c, args[0], l);
      ListsStep(c.rxQueues[l], c.nicPorts[l], args, c'.rxQueues[l], c'.nicPorts[l], d.rxQueues[l], d.nicPorts[l], l);
      TypeStep(c.types[l], args, c'.types[l], d.types[l], l);
    }
  }

  lemma SaysNothing(queues: seq<Queue>, ports: seq<nat>, was: LcoreType, l: nat)
    ensures ListsSaid(queues, ports, [], queues, ports, l) && TypeSaid(was, [], was, l)
  {
  }

  lemma {:induction false} RulesFrom(c: Config, args: seq<Arg>, d: Config)
    requires Sized(c) && Parses(c, args, d)
    ensures |d.rules| == |c.rules| + Count(args, IsRule()) && c.rules <= d.rules
    ensures forall r :: r in d.rules <==> r in c.rules || ArgLpm(r) in args
    decreases |args|
  {
    hide Sized;
    if args != [] {
      OneSized(c, args[0]);
      RulesFrom(ParseOne(c, args[0]), args[1..], d);
      assert args == [args[0]] + args[1..];
    }
  }

  /** What was parsed is what was given: each lcore has exactly the queues and ports of its entries,
      one for each, and is what the last entry that names it makes of it; and there is exactly one
      rule for each entry that is one. */
  lemma ParsedHolds(args: seq<Arg>, d: Config)
    requires Parses(UNSET, args, d)
    ensures Sized(d)
    ensures forall l :: 0 <= l < MAX_LCORES ==>
              ListsSaid([], [], args, d.rxQueues[l], d.nicPorts[l], l) && TypeSaid(Disabled, args, d.types[l], l)
    ensures |d.rules| == Count(args, IsRule()) && forall r :: r in d.rules <==> ArgLpm(r) in args
  {
    UnsetOk();
    ParsedFrom(UNSET, args, d, 0);
    RulesFrom(UNSET, args, d);
    hide ListsSaid, TypeSaid, Parses;
    forall l | 0 <= l < MAX_LCORES
      ensures ListsSaid([], [], args, d.rxQueues[l], d.nicPorts[l], l) && TypeSaid(Disabled, args, d.types[l], l)
    {
      ParsedFrom(UNSET, args, d, l);
    }
  }

  lemma ParsesMore(c: Config, a: Arg, args: seq<Arg>, d: Config)
    requires Sized(c) && Fits(c, a) && Parses(ParseOne(c, a), args, d)
    ensures Parses(c, [a] + args, d)
  {
    assert ([a] + args)[1..] == args;
  }

  // ---------- The ninth rule ----------

  /** Depth and interface share a word, whose upper half is padding. */
  function Low(r: Rule): nat { r.depth + 256 * r.ifOut }

  function WithLow(word: nat, low: nat): nat { word - word % U16 + low }

  /** lpm_rules, n_lpm_rules and nic_rx_ring_size follow one another: 8 rules of two words each,
      the number of rules, and one more word. */
  const N_RULES := 2 * MAX_RULES

  predicate Words(w: seq<nat>) { |w| == N_RULES + 2 }

  /** The rules are stored and counted, and where there is none memory is as it was, zero. */
  ghost predicate Kept(w: seq<nat>, rules: seq<Rule>) {
    && Words(w) && |rules| <= MAX_RULES + 1 && w[N_RULES] == |rules|
    && (forall i :: 0 <= i < |rules| ==> w[2 * i] == rules[i].ip && w[2 * i + 1] == Low(rules[i]))
    && (forall k :: 2 * |rules| <= k < N_RULES ==> w[k] == 0)
  }

  /** The stores of one rule: the address first, and the number of rules last. */
  method StoreRule(w: array<nat>, r: Rule)
    requires Words(w[..]) && w[N_RULES] <= MAX_RULES && IsRuleEntry(r)
    modifies w
    ensures var n := old(w[N_RULES]);
            if n < MAX_RULES then
              w[..] == old(w[..])[2 * n := r.ip][2 * n + 1 := WithLow(old(w[2 * n + 1]), Low(r))][N_RULES := n + 1]
            else
              Words(w[..]) && w[N_RULES] == (r.ip + 1) % U32
  {
    hide WithLow, Low;
    var n := w[N_RULES];
    ghost var was: seq<nat>, low := w[..], WithLow(w[2 * n + 1], Low(r));
    w[2 * n] := r.ip;
    assert w[..] == was[2 * n := r.ip];
    w[2 * n + 1] := WithLow(w[2 * n + 1], Low(r));
    assert w[..] == was[2 * n := r.ip][2 * n + 1 := low];
    ghost var all: seq<nat> := w[..];
    w[N_RULES] := (w[N_RULES] + 1) % U32;
    assert w[..] == all[N_RULES := (all[N_RULES] + 1) % U32];
  }

  /** One rule of parse_arg_lpm. */
  method ParseRule(w: array<nat>, r: Rule, ghost rules: seq<Rule>)
    requires Kept(w[..], rules) && |rules| <= MAX_RULES && IsRuleEntry(r)
    modifies w
    ensures Words(w[..]) && if |rules| < MAX_RULES then Kept(w[..], rules + [r]) else w[N_RULES] == (r.ip + 1) % U32
  {
    ghost var was: seq<nat> := w[..];
    KeptCount(was, rules);
    hide Kept, WithLow, Low;
    StoreRule(w, r);
    if |rules| < MAX_RULES {
      OneMoreKept(was, rules, r, w[..]);
    }
  }

  /** parse_arg_lpm, when some rules have been parsed already, up to the ninth in all: the rules are
      all there afterwards if and only if they are not nine.  The address of the ninth goes where
      their number is kept. */
  method ParseLpm(w: array<nat>, more: seq<Rule>, ghost rules: seq<Rule>)
    requires Kept(w[..], rules) && |rules| <= MAX_RULES && |rules| + |more| <= MAX_RULES + 1
    requires forall i :: 0 <= i < |more| ==> IsRuleEntry(more[i])
    modifies w
    ensures Kept(w[..], rules + more) <==> |rules| + |more| <= MAX_RULES
    ensures |rules| + |more| == MAX_RULES + 1 ==> w[N_RULES] == (more[|more| - 1].ip + 1) % U32
  {
    assert rules + more[..0] == rules;
    KeptCount(w[..], rules);
    hide Kept, IsRuleEntry;
    for i := 0 to |more|
      invariant Words(w[..]) && (|rules| + i <= MAX_RULES ==> Kept(w[..], rules + more[..i]))
      invariant |rules| + i == MAX_RULES + 1 ==> i > 0 && w[N_RULES] == (more[i - 1].ip + 1) % U32
    {
      ParseRule(w, more[i], rules + more[..i]);
      assert (rules + more[..i]) + [more[i]] == rules + more[..i + 1];
    }
    assert more[..|more|] == more;
    if |rules| + |more| == MAX_RULES + 1 {
      NinthLost(w[..], rules + more);
    }
  }

  lemma KeptCount(w: seq<nat>, rules: seq<Rule>)
    requires Kept(w, rules)
    ensures Words(w) && w[N_RULES] == |rules|
  {
  }

  /** Nine rules are not kept: the word of the ninth's address is the number of rules. */
  lemma NinthLost(w: seq<nat>, rules: seq<Rule>)
    requires Words(w) && |rules| == MAX_RULES + 1 && w[N_RULES] == (rules[MAX_RULES].ip + 1) % U32
    requires IsRuleEntry(rules[MAX_RULES])
    ensures !Kept(w, rules)
  {
  }

  lemma OneMoreKept(w: seq<nat>, rules: seq<Rule>, r: Rule, w': seq<nat>)
    requires Kept(w, rules) && |rules| < MAX_RULES && Words(w')
    requires var n := |rules|; w' == w[2 * n := r.ip][2 * n + 1 := WithLow(w[2 * n + 1], Low(r))][N_RULES := n + 1]
    ensures Kept(w', rules + [r])
  {
    var n, all := |rules|, rules + [r];
    forall i | 0 <= i < |all| ensures w'[2 * i] == all[i].ip && w'[2 * i + 1] == Low(all[i]) {
      if i < n { assert all[i] == rules[i]; }
    }
  }

  // ---------- Counting and lookup ----------

  function WorkerLcore(c: Config): nat -> bool {
    (l: nat) => l < |c.types| && c.types[l].Worker?
  }

  predicate IsRxIo(c: Config, l: nat) {
    l < |c.types| && l < |c.rxQueues| && c.types[l].Io? && c.rxQueues[l] != []
  }

  function RxIoLcore(c: Config): nat -> bool {
    (l: nat) => IsRxIo(c, l)
  }

  /** The worker lcores and the receiving I/O lcores below n, in ascending order. */
  function Workers(c: Config, n: nat): seq<nat> { Below(n, WorkerLcore(c)) }

  function RxIos(c: Config, n: nat): seq<nat> { Below(n, RxIoLcore(c)) }

  /** A worker is found in the list at the position that counts the workers before it. */
  lemma WorkerAt(c: Config, l: nat, n: nat)
    requires l < n <= |c.types| && c.types[l].Worker?
    ensures |Workers(c, l)| < |Workers(c, n)| && Workers(c, n)[|Workers(c, l)|] == l
  {
    BelowAt(l, n, WorkerLcore(c));
  }

  lemma WorkersFew(c: Config, n: nat)
    ensures |Workers(c, n)| <= n
  {
    BelowIs(n, WorkerLcore(c));
  }

  /** And only workers are in it. */
  lemma WorkersAre(c: Config, n: nat)
    requires n <= |c.types|
    ensures forall i {:trigger Workers(c, n)[i]} :: 0 <= i < |Workers(c, n)| ==>
              Workers(c, n)[i] < n && c.types[Workers(c, n)[i]].Worker? && |Workers(c, Workers(c, n)[i])| == i
  {
    BelowPositions(n, WorkerLcore(c));
  }

  lemma NextLcore(c: Config, n: nat)
    requires n < |c.types|
    ensures Workers(c, 0) == [] == RxIos(c, 0)
    ensures Workers(c, n + 1) == if c.types[n].Worker? then Workers(c, n) + [n] else Workers(c, n)
    ensures RxIos(c, n + 1) == if IsRxIo(c, n) then RxIos(c, n) + [n] else RxIos(c, n)
  {
    BelowNext(n, WorkerLcore(c));
    BelowNext(n, RxIoLcore(c));
  }

  lemma RxIosAre(c: Config, n: nat, l: nat)
    ensures l in RxIos(c, n) <==> l < n && IsRxIo(c, l)
  {
    BelowIs(n, RxIoLcore(c));
  }

  /** The lcore that polls the TX of a port: the first I/O lcore that lists it. */
  predicate Lists(c: Config, l: nat, port: nat)
    requires Sized(c) && l < MAX_LCORES
  {
    c.types[l].Io? && port in c.nicPorts[l]
  }

  predicate Owns(c: Config, l: nat, port: nat)
    requires Sized(c)
  {
    l < MAX_LCORES && Lists(c, l, port) && forall k :: 0 <= k < l ==> !Lists(c, k, port)
  }

  lemma OneFirst(c: Config, l: nat, k: nat, port: nat)
    requires Sized(c) && Owns(c, l, port) && Owns(c, k, port)
    ensures l == k
  {
  }

  /** app_get_lcore_for_nic_tx. */
  method LcoreForNicTx(c: Config, port: nat) returns (found: bool, lcore: nat)
    requires Sized(c)
    ensures found ==> Owns(c, lcore, port)
    ensures !found ==> forall l :: 0 <= l < MAX_LCORES ==> !Lists(c, l, port)
  {
    lcore := 0;
    while lcore < MAX_LCORES
      invariant lcore <= MAX_LCORES && forall l :: 0 <= l < lcore ==> !Lists(c, l, port)
    {
      if c.types[lcore].Io? {
        var i := 0;
        while i < |c.nicPorts[lcore]|
          invariant i <= |c.nicPorts[lcore]| && port !in c.nicPorts[lcore][..i]
        {
          if c.nicPorts[lcore][i] == port {
            return true, lcore;
          }
          i := i + 1;
        }
        assert c.nicPorts[lcore][..i] == c.nicPorts[lcore];
      }
      lcore := lcore + 1;
    }
    return false, 0;
  }

  lemma TypesSized(c: Config)
    requires Sized(c)
    ensures |c.types| == MAX_LCORES
  {
  }

  lemma NextCount(c: Config, l: nat)
    requires l < |c.types|
    ensures |Workers(c, l + 1)| == |Workers(c, l)| + if c.types[l].Worker? then 1 else 0
  {
    hide Below, WorkerLcore;
    NextLcore(c, l);
  }

  /** app_get_lcores_worker; its own check for too many never fails. */
  method CountWorkers(c: Config) returns (r: Result, count: nat)
    requires Sized(c)
    ensures r.Ok? && count == |Workers(c, MAX_LCORES)|
  {
    count := 0;
    WorkersFew(c, 0);
    WorkersFew(c, MAX_LCORES);
    TypesSized(c);
    hide *;
    for l := 0 to MAX_LCORES
      invariant count == |Workers(c, l)|
    {
      NextCount(c, l);
      if c.types[l].Worker? { count := count + 1; }
    }
    r := if count > MAX_LCORES then Fail("too many worker lcores") else Ok;
  }

  /** app_get_lcores_io_rx. */
  method CountRxIos(c: Config) returns (count: nat)
    requires Sized(c)
    ensures count == |RxIos(c, MAX_LCORES)|
  {
    count := 0;
    NextLcore(c, 0);
    assert |c.types| == |c.rxQueues| == MAX_LCORES;
    hide Workers, RxIos, WorkerLcore, RxIoLcore, Below, Sized;
    for l := 0 to MAX_LCORES
      invariant count == |RxIos(c, l)|
    {
      NextLcore(c, l);
      if c.types[l].Io? && |c.rxQueues[l]| != 0 { count := count + 1; }
    }
  }

  ghost predicate HasRxQueue(c: Config, port: nat)
    requires Sized(c) && port < MAX_PORTS
  {
    exists q :: 0 <= q < MAX_QUEUES && c.rxMask[port][q]
  }

  /** app_get_nic_rx_queues_per_port, as far as it is compared with zero. */
  method RxQueuesPerPort(c: Config, port: nat) returns (count: nat)
    requires Sized(c) && port < MAX_PORTS
    ensures count > 0 <==> HasRxQueue(c, port)
  {
    count := 0;
    for q := 0 to MAX_QUEUES
      invariant count > 0 <==> exists k :: 0 <= k < q && c.rxMask[port][k]
    {
      if c.rxMask[port][q] { count := count + 1; }
    }
  }

  // ---------- What lies past the mask ----------

  /** Byte k of a little-endian word. */
  function ByteOf(x: nat, k: nat): nat {
    if k == 0 then x % 256 else ByteOf(x / 256, k - 1)
  }

  lemma {:induction false} ZeroBytes(k: nat)
    ensures ByteOf(0, k) == 0
  {
    if k > 0 { ZeroBytes(k - 1); }
  }

  /** The four ring sizes and the six burst sizes, which are set before the checks. */
  const SIZES := [1024, 1024, 16384, 16384, 144, 144, 144, 144, 144, 144]

  /** The words that follow nic_tx_port_mask when the checks read past it: two pools and two tables
      of two words each, which are created later, the rules, their number, and the sizes. */
  function WordBehind(c: Config, i: nat): nat
    requires i < 35
  {
    if i < 8 then 0
    else if i < 8 + N_RULES then
      var k := (i - 8) / 2;
      if k >= |c.rules| then 0 else if i % 2 == 0 then c.rules[k].ip else Low(c.rules[k])
    else if i == 8 + N_RULES then |c.rules|
    else SIZES[i - 9 - N_RULES]
  }

  /** Those are the words the parser has left. */
  lemma KeptIsBehind(w: seq<nat>, c: Config)
    requires Sized(c) && Kept(w, c.rules)
    ensures forall i :: 0 <= i <= N_RULES ==> w[i] == WordBehind(c, i + 8)
  {
    forall i | 0 <= i <= N_RULES ensures w[i] == WordBehind(c, i + 8) {
      if i < N_RULES && i / 2 < |c.rules| {
        assert w[2 * (i / 2)] == c.rules[i / 2].ip && w[2 * (i / 2) + 1] == Low(c.rules[i / 2]);
      }
    }
  }

  /** Whether the byte at a position past the mask is set: in the words, then pos_lb and padding,
      and beyond them whatever follows the parameters in memory. */
  function Behind(c: Config, posLb: nat, beyond: nat -> bool): nat -> bool {
    (p: nat) =>
      if p < MAX_PORTS then false
      else if p < 172 then ByteOf(WordBehind(c, (p - MAX_PORTS) / 4), (p - MAX_PORTS) % 4) != 0
      else if p == 172 then posLb != 0
      else if p < 176 then false
      else beyond(p)
  }

  /** The pointers right behind the mask are still null. */
  lemma PointersNull(c: Config, posLb: nat, beyond: nat -> bool, p: nat)
    requires p < 64
    ensures !Behind(c, posLb, beyond)(p)
  {
    if MAX_PORTS <= p {
      var i := (p - MAX_PORTS) / 4;
      assert i < 8 && WordBehind(c, i) == 0;
      ZeroBytes((p - MAX_PORTS) % 4);
      assert Behind(c, posLb, beyond)(p) == (ByteOf(WordBehind(c, i), (p - MAX_PORTS) % 4) != 0);
    }
  }

  lemma LowBytes(r: Rule, k: nat)
    requires IsRuleEntry(r) && k < 4
    ensures ByteOf(Low(r), k) == if k == 0 then r.depth else if k == 1 then r.ifOut else 0
  {
    assert Low(r) % 256 == r.depth && Low(r) / 256 == r.ifOut;
    if k >= 2 {
      assert r.ifOut / 256 == 0;
      ZeroBytes(k - 2);
    }
  }

  /** Whether byte o of a rule in memory is set. */
  predicate RuleByteSet(r: Rule, o: nat) {
    if o < 4 then ByteOf(r.ip, o) != 0
    else if o == 4 then r.depth != 0
    else o == 5 && r.ifOut != 0
  }

  /** From port 64 on, eight ports to a rule: the check of a rule for such a port looks at a byte of
      an address, at a depth, at an output interface, or at padding, which is zero. */
  lemma RuleBytes(c: Config, posLb: nat, beyond: nat -> bool, p: nat)
    requires 64 <= p < 128 && |c.rules| <= MAX_RULES
    requires forall i :: 0 <= i < |c.rules| ==> IsRuleEntry(c.rules[i])
    ensures Behind(c, posLb, beyond)(p)
       <==> (p - 64) / 8 < |c.rules| && RuleByteSet(c.rules[(p - 64) / 8], p % 8)
  {
    var k, o, i := (p - 64) / 8, p % 8, (p - MAX_PORTS) / 4;
    assert (p - MAX_PORTS) % 4 == o % 4 && (i - 8) / 2 == k && (i % 2 == 0 <==> o < 4);
    assert Behind(c, posLb, beyond)(p) == (ByteOf(WordBehind(c, i), o % 4) != 0);
    hide ByteOf, Low;
    if k < |c.rules| {
      LowBytes(c.rules[k], o % 4);
    } else {
      ZeroBytes(o % 4);
    }
  }

  // ---------- The checks ----------

  /** The byte the check of the rules reads for a port: of the mask, or past it, as nothing compares
      the port with the size of the mask. */
  function TxByte(c: Config, past: nat -> bool, port: nat): bool
    requires Sized(c)
  {
    if port < MAX_PORTS then c.txMask[port] else past(port)
  }

  ghost predicate RxHasTx(c: Config)
    requires Sized(c)
  {
    forall p :: 0 <= p < MAX_PORTS && HasRxQueue(c, p) ==> c.txMask[p]
  }

  /** Every byte that is read for a rule is set. */
  ghost predicate RulesRead(c: Config, past: nat -> bool)
    requires Sized(c)
  {
    forall i :: 0 <= i < |c.rules| ==> TxByte(c, past, c.rules[i].ifOut)
  }

  ghost predicate Accepts(c: Config, past: nat -> bool)
    requires Sized(c)
  {
    RulesRead(c, past) && RxHasTx(c)
  }

  /** What the checks are for: every rule's port and every receiving port has TX. */
  ghost predicate Sound(c: Config)
    requires Sized(c)
  {
    && (forall i :: 0 <= i < |c.rules| ==> c.rules[i].ifOut < MAX_PORTS && c.txMask[c.rules[i].ifOut])
    && RxHasTx(c)
  }

  ghost predicate RulesBelow(c: Config, n: nat) { forall i :: 0 <= i < |c.rules| ==> c.rules[i].ifOut < n }

  /** The two checks that end app_parse_args: app_check_lpm_table and
      app_check_every_rx_port_is_tx_enabled. */
  method CheckArgs(c: Config, past: nat -> bool) returns (r: Result)
    requires Sized(c)
    ensures r.Ok? <==> Accepts(c, past)
  {
    hide HasRxQueue;
    for i := 0 to |c.rules|
      invariant forall k :: 0 <= k < i ==> TxByte(c, past, c.rules[k].ifOut)
    {
      if !TxByte(c, past, c.rules[i].ifOut) { return Fail("inconsistent LPM rule"); }
    }
    for p := 0 to MAX_PORTS
      invariant forall k :: 0 <= k < p && HasRxQueue(c, k) ==> c.txMask[k]
    {
      var n := RxQueuesPerPort(c, p);
      if n > 0 && !c.txMask[p] { return Fail("RX port not enabled for TX"); }
    }
    r := Ok;
  }

  /** With memory as it is laid out the checks accept just what they should if and only if every
      rule's port is below 64, or one of the bytes read is not set, or a receiving port lacks TX. */
  lemma ChecksExact(c: Config, posLb: nat, beyond: nat -> bool)
    requires Sized(c)
    ensures (Accepts(c, Behind(c, posLb, beyond)) <==> Sound(c))
       <==> RulesBelow(c, 64) || !RulesRead(c, Behind(c, posLb, beyond)) || !RxHasTx(c)
  {
    hide RxHasTx, Behind;
    var past := Behind(c, posLb, beyond);
    forall i | 0 <= i < |c.rules| && c.rules[i].ifOut < 64 && TxByte(c, past, c.rules[i].ifOut)
      ensures c.rules[i].ifOut < MAX_PORTS
    {
      PointersNull(c, posLb, beyond, c.rules[i].ifOut);
    }
  }

  /** And whatever memory held, if and only if every rule's port is below 32, or something in range
      is refused anyway. */
  lemma ChecksExactAnywhere(c: Config)
    requires Sized(c)
    ensures (forall past: nat -> bool :: Accepts(c, past) <==> Sound(c))
       <==> RulesBelow(c, MAX_PORTS) || !RxHasTx(c)
            || exists i :: 0 <= i < |c.rules| && c.rules[i].ifOut < MAX_PORTS && !c.txMask[c.rules[i].ifOut]
  {
    hide RxHasTx;
    var every := (p: nat) => true;
    if !RulesBelow(c, MAX_PORTS) {
      assert !Sound(c);
      if RxHasTx(c)
        && forall i :: 0 <= i < |c.rules| && c.rules[i].ifOut < MAX_PORTS ==> c.txMask[c.rules[i].ifOut]
      {
        assert Accepts(c, every);
      }
    }
  }
}
