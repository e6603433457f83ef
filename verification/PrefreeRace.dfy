/** The reference counter of one mbuf under concurrent holders (src/ext/rte_mbuf.c:754-786,
    1350-1375 and 1391-1422).  Reading the counter, and acting on what was read, are separate
    steps, and the steps of all holders interleave freely.  A holder of one reference may give it
    back with rte_pktmbuf_prefree_seg, or, if the holder is an attached mbuf, with
    rte_pktmbuf_detach; or it may take another one with rte_mbuf_refcnt_update.  All three have a
    non-atomic fast path for a counter of one; the one of detach stores a zero. */
module PrefreeRace {
  import opened Bits

  datatype Pc =
    | Holding                 // between operations, with one reference
    | FreeSawOne              // prefree read 1
    | FreeSawMore             // prefree read something else
    | ShareSawOne             // refcnt_update(+1) read 1
    | ShareSawMore            // refcnt_update(+1) read something else
    | DetachSawOne            // detach's refcnt_update(-1) read 1
    | DetachSawMore           // detach's refcnt_update(-1) read something else
    | AtZero                  // the counter went to 0; it has yet to be set to one
    | Returned(last: bool)    // let go; the caller has the mbuf to itself (last) or not

  datatype System = System(refcnt: nat, pcs: seq<Pc>)

  datatype Step =
    | FreeRead(i: nat)
    | FreeAct(i: nat)
    | DetachRead(i: nat)
    | DetachAct(i: nat)
    | SetOne(i: nat)
    | ShareRead(i: nat)
    | ShareAct(i: nat)

  predicate SawOne(pc: Pc) { pc.FreeSawOne? || pc.ShareSawOne? || pc.DetachSawOne? }

  predicate HasReference(pc: Pc) { !pc.AtZero? && !pc.Returned? }

  predicate IsLast(pc: Pc) { pc.AtZero? || pc == Returned(true) }

  function Count(pcs: seq<Pc>, p: Pc -> bool): nat {
    if pcs == [] then 0
    else Count(pcs[..|pcs| - 1], p) + (if p(pcs[|pcs| - 1]) then 1 else 0)
  }

  function Init(k: nat): System { System(k, seq(k, _ => Holding)) }

  /** Taking a reference needs room in the 16-bit counter. */
  predicate Enabled(s: System, e: Step) {
    && e.i < |s.pcs|
    && match e
       case FreeRead(i) => s.pcs[i] == Holding
       case FreeAct(i) => s.pcs[i].FreeSawOne? || s.pcs[i].FreeSawMore?
       case DetachRead(i) => s.pcs[i] == Holding
       case DetachAct(i) => s.pcs[i].DetachSawOne? || s.pcs[i].DetachSawMore?
       case SetOne(i) => s.pcs[i].AtZero?
       case ShareRead(i) => s.pcs[i] == Holding
       case ShareAct(i) => (s.pcs[i].ShareSawOne? || s.pcs[i].ShareSawMore?) && s.refcnt + 1 < U16
  }

  function Next(s: System, e: Step): System
    requires Enabled(s, e)
  {
    match e
    case FreeRead(i) => s.(pcs := s.pcs[i := if s.refcnt == 1 then FreeSawOne else FreeSawMore])
    case FreeAct(i) =>
      if s.pcs[i].FreeSawOne? then s.(pcs := s.pcs[i := Returned(true)])
      else
        var left := (s.refcnt - 1) % U16;
        System(left, s.pcs[i := if left == 0 then AtZero else Returned(false)])
    case DetachRead(i) => s.(pcs := s.pcs[i := if s.refcnt == 1 then DetachSawOne else DetachSawMore])
    case DetachAct(i) =>
      var left := if s.pcs[i].DetachSawOne? then 0 else (s.refcnt - 1) % U16;
      System(left, s.pcs[i := if left == 0 then AtZero else Returned(false)])
    case SetOne(i) => System(1, s.pcs[i := Returned(true)])
    case ShareRead(i) => s.(pcs := s.pcs[i := if s.refcnt == 1 then ShareSawOne else ShareSawMore])
    case ShareAct(i) =>
      System(if s.pcs[i].ShareSawOne? then 2 else (s.refcnt + 1) % U16, s.pcs[i := Holding] + [Holding])
  }

  /** The counter is the number of references as long as there is one; whoever read a one is the
      only holder; and the mbuf goes back to exactly one caller, once nobody else holds it. */
  predicate Inv(s: System) {
    var live := Count(s.pcs, HasReference);
    var last := Count(s.pcs, IsLast);
    && live < U16
    && (live > 0 ==> s.refcnt == live && last == 0)
    && (live == 0 ==> last == 1)
    && (forall i :: 0 <= i < |s.pcs| && SawOne(s.pcs[i]) ==> live == 1)
    && (forall i :: 0 <= i < |s.pcs| && s.pcs[i].AtZero? ==> s.refcnt == 0)
    && (forall i :: 0 <= i < |s.pcs| && s.pcs[i] == Returned(true) ==> s.refcnt == 1)
  }

  lemma {:induction false} CountUpdate(pcs: seq<Pc>, i: nat, x: Pc, p: Pc -> bool)
    requires i < |pcs|
    ensures Count(pcs[i := x], p) == Count(pcs, p) - (if p(pcs[i]) then 1 else 0) + (if p(x) then 1 else 0)
  {
    var k := |pcs| - 1;
    if i < k {
      assert pcs[i := x][..k] == pcs[..k][i := x];
      CountUpdate(pcs[..k], i, x, p);
    } else {
      assert pcs[i := x][..k] == pcs[..k];
    }
  }

  lemma CountAppend(pcs: seq<Pc>, x: Pc, p: Pc -> bool)
    ensures Count(pcs + [x], p) == Count(pcs, p) + (if p(x) then 1 else 0)
  {
    assert (pcs + [x])[..|pcs|] == pcs;
  }

  lemma {:induction false} CountAtLeast(pcs: seq<Pc>, i: nat, j: nat, p: Pc -> bool)
    requires i < |pcs| && j < |pcs| && p(pcs[i]) && p(pcs[j])
    ensures Count(pcs, p) >= if i == j then 1 else 2
  {
    var k := |pcs| - 1;
    if i < k && j < k { CountAtLeast(pcs[..k], i, j, p); }
    if i < k && j == k { CountAtLeast(pcs[..k], i, i, p); }
    if i == k && j < k { CountAtLeast(pcs[..k], j, j, p); }
  }

  lemma {:induction false} CountSome(pcs: seq<Pc>, p: Pc -> bool) returns (i: nat)
    requires Count(pcs, p) > 0
    ensures i < |pcs| && p(pcs[i])
  {
    var k := |pcs| - 1;
    if p(pcs[k]) { i := k; } else { i := CountSome(pcs[..k], p); }
  }

  lemma {:induction false} CountAll(k: nat)
    ensures Count(Init(k).pcs, HasReference) == k && Count(Init(k).pcs, IsLast) == 0
  {
    if k > 0 {
      CountAll(k - 1);
      assert Init(k).pcs[..k - 1] == Init(k - 1).pcs;
    }
  }

  lemma InitInv(k: nat)
    requires 0 < k < U16
    ensures Inv(Init(k))
  {
    CountAll(k);
  }

  /** The holder that moves, against any other. */
  lemma Others(s: System, i: nat)
    requires i < |s.pcs|
    ensures HasReference(s.pcs[i]) ==> Count(s.pcs, HasReference) >= 1
    ensures IsLast(s.pcs[i]) ==> Count(s.pcs, IsLast) >= 1
    ensures forall j :: 0 <= j < |s.pcs| && j != i ==>
              && (HasReference(s.pcs[i]) && HasReference(s.pcs[j]) ==> Count(s.pcs, HasReference) >= 2)
              && (IsLast(s.pcs[i]) && IsLast(s.pcs[j]) ==> Count(s.pcs, IsLast) >= 2)
              && (IsLast(s.pcs[j]) ==> Count(s.pcs, IsLast) >= 1)
  {
    if HasReference(s.pcs[i]) { CountAtLeast(s.pcs, i, i, HasReference); }
    if IsLast(s.pcs[i]) { CountAtLeast(s.pcs, i, i, IsLast); }
    forall j | 0 <= j < |s.pcs| && j != i
      ensures HasReference(s.pcs[i]) && HasReference(s.pcs[j]) ==> Count(s.pcs, HasReference) >= 2
      ensures IsLast(s.pcs[i]) && IsLast(s.pcs[j]) ==> Count(s.pcs, IsLast) >= 2
      ensures IsLast(s.pcs[j]) ==> Count(s.pcs, IsLast) >= 1
    {
      if HasReference(s.pcs[i]) && HasReference(s.pcs[j]) { CountAtLeast(s.pcs, i, j, HasReference); }
      if IsLast(s.pcs[i]) && IsLast(s.pcs[j]) { CountAtLeast(s.pcs, i, j, IsLast); }
      if IsLast(s.pcs[j]) { CountAtLeast(s.pcs, j, j, IsLast); }
    }
  }

  lemma ReadKeepsInv(s: System, e: Step)
    requires Inv(s) && Enabled(s, e) && (e.FreeRead? || e.DetachRead? || e.ShareRead?)
    ensures Inv(Next(s, e))
  {
    Others(s, e.i);
    CountUpdate(s.pcs, e.i, Next(s, e).pcs[e.i], HasReference);
    CountUpdate(s.pcs, e.i, Next(s, e).pcs[e.i], IsLast);
    hide Count;
  }

  lemma FreeActKeepsInv(s: System, e: Step)
    requires Inv(s) && Enabled(s, e) && e.FreeAct?
    ensures Inv(Next(s, e))
  {
    Others(s, e.i);
    CountUpdate(s.pcs, e.i, Next(s, e).pcs[e.i], HasReference);
    CountUpdate(s.pcs, e.i, Next(s, e).pcs[e.i], IsLast);
    hide Count;
  }

  lemma DetachActKeepsInv(s: System, e: Step)
    requires Inv(s) && Enabled(s, e) && e.DetachAct?
    ensures Inv(Next(s, e))
  {
    Others(s, e.i);
    CountUpdate(s.pcs, e.i, Next(s, e).pcs[e.i], HasReference);
    CountUpdate(s.pcs, e.i, Next(s, e).pcs[e.i], IsLast);
    hide Count;
  }

  lemma SetOneKeepsInv(s: System, e: Step)
    requires Inv(s) && Enabled(s, e) && e.SetOne?
    ensures Inv(Next(s, e))
  {
    Others(s, e.i);
    CountUpdate(s.pcs, e.i, Next(s, e).pcs[e.i], HasReference);
    CountUpdate(s.pcs, e.i, Next(s, e).pcs[e.i], IsLast);
    hide Count;
  }

  lemma ShareActKeepsInv(s: System, e: Step)
    requires Inv(s) && Enabled(s, e) && e.ShareAct?
    ensures Inv(Next(s, e))
  {
    var pcs := s.pcs[e.i := Holding];
    Others(s, e.i);
    CountUpdate(s.pcs, e.i, Holding, HasReference);
    CountUpdate(s.pcs, e.i, Holding, IsLast);
    CountAppend(pcs, Holding, HasReference);
    CountAppend(pcs, Holding, IsLast);
    hide Count;
    var t := Next(s, e);
    assert t.pcs == pcs + [Holding];
    forall j | 0 <= j < |t.pcs|
      ensures !SawOne(t.pcs[j]) && !IsLast(t.pcs[j])
    {
      if j < |s.pcs| && j != e.i { assert t.pcs[j] == s.pcs[j]; }
    }
  }

  lemma StepKeepsInv(s: System, e: Step)
    requires Inv(s) && Enabled(s, e)
    ensures Inv(Next(s, e))
  {
    match e {
      case FreeAct(_) => FreeActKeepsInv(s, e);
      case DetachAct(_) => DetachActKeepsInv(s, e);
      case SetOne(_) => SetOneKeepsInv(s, e);
      case ShareAct(_) => ShareActKeepsInv(s, e);
      case _ => ReadKeepsInv(s, e);
    }
  }

  ghost predicate IsRun(s: System, es: seq<Step>, t: System)
    decreases |es|
  {
    if es == [] then s == t else Enabled(s, es[0]) && IsRun(Next(s, es[0]), es[1..], t)
  }

  lemma {:induction false} RunKeepsInv(s: System, es: seq<Step>, t: System)
    requires Inv(s) && IsRun(s, es, t)
    ensures Inv(t)
    decreases |es|
  {
    if es != [] {
      StepKeepsInv(s, es[0]);
      RunKeepsInv(Next(s, es[0]), es[1..], t);
    }
  }

  // ---------- Every step gets somewhere ----------

  /** Nobody else is last when this one is, and one that is has no reference. */
  lemma LastIsThere(s: System, i: nat)
    requires Inv(s) && i < |s.pcs|
    ensures HasReference(s.pcs[i]) ==> Count(s.pcs, HasReference) > 0
    ensures IsLast(s.pcs[i]) ==> Count(s.pcs, HasReference) == 0
  {
    if HasReference(s.pcs[i]) { CountAtLeast(s.pcs, i, i, HasReference); }
    if IsLast(s.pcs[i]) { CountAtLeast(s.pcs, i, i, IsLast); }
  }

  lemma ReadMoves(s: System, e: Step)
    requires Inv(s) && Enabled(s, e) && (e.FreeRead? || e.DetachRead? || e.ShareRead?)
    ensures var t := Next(s, e);
            && |t.pcs| == |s.pcs| && t.refcnt == s.refcnt && Count(t.pcs, HasReference) == Count(s.pcs, HasReference)
            && (SawOne(t.pcs[e.i]) <==> Count(s.pcs, HasReference) == 1)
            && HasReference(t.pcs[e.i]) && t.pcs[e.i] != Holding
  {
    LastIsThere(s, e.i);
    CountUpdate(s.pcs, e.i, Next(s, e).pcs[e.i], HasReference);
    hide Count;
  }

  lemma LetGoMoves(s: System, e: Step)
    requires Inv(s) && Enabled(s, e) && (e.FreeAct? || e.DetachAct?)
    ensures var t := Next(s, e);
            && |t.pcs| == |s.pcs| && Count(t.pcs, HasReference) == Count(s.pcs, HasReference) - 1
            && (Count(t.pcs, HasReference) > 0 ==> t.pcs[e.i] == Returned(false) && t.refcnt == s.refcnt - 1)
            && (Count(t.pcs, HasReference) == 0 ==> IsLast(t.pcs[e.i]))
  {
    LastIsThere(s, e.i);
    CountUpdate(s.pcs, e.i, Next(s, e).pcs[e.i], HasReference);
    hide Count;
  }

  lemma ShareMoves(s: System, e: Step)
    requires Inv(s) && Enabled(s, e) && e.ShareAct?
    ensures var t := Next(s, e);
            && |t.pcs| == |s.pcs| + 1 && t.pcs[e.i] == t.pcs[|s.pcs|] == Holding
            && t.refcnt == s.refcnt + 1 && Count(t.pcs, HasReference) == Count(s.pcs, HasReference) + 1
  {
    LastIsThere(s, e.i);
    CountUpdate(s.pcs, e.i, Holding, HasReference);
    CountAppend(s.pcs[e.i := Holding], Holding, HasReference);
    hide Count;
  }

  /** What a step does, whichever way it takes: a read leaves all references as they are, and finds
      a one exactly for an only holder; giving a reference back takes one away, taking one adds one,
      and the counter follows; and nobody else is touched. */
  lemma StepMoves(s: System, e: Step)
    requires Inv(s) && Enabled(s, e)
    ensures var t := Next(s, e);
            && e.i < |s.pcs| <= |t.pcs| && forall j :: 0 <= j < |s.pcs| && j != e.i ==> t.pcs[j] == s.pcs[j]
    ensures e.FreeRead? || e.DetachRead? || e.ShareRead? ==>
              var t := Next(s, e);
              && |t.pcs| == |s.pcs| && t.refcnt == s.refcnt && Count(t.pcs, HasReference) == Count(s.pcs, HasReference)
              && (SawOne(t.pcs[e.i]) <==> Count(s.pcs, HasReference) == 1)
              && HasReference(t.pcs[e.i]) && t.pcs[e.i] != Holding
    ensures e.FreeAct? || e.DetachAct? ==>
              var t := Next(s, e);
              && |t.pcs| == |s.pcs| && Count(t.pcs, HasReference) == Count(s.pcs, HasReference) - 1
              && (Count(t.pcs, HasReference) > 0 ==> t.pcs[e.i] == Returned(false) && t.refcnt == s.refcnt - 1)
              && (Count(t.pcs, HasReference) == 0 ==> IsLast(t.pcs[e.i]))
    ensures e.ShareAct? ==>
              var t := Next(s, e);
              && |t.pcs| == |s.pcs| + 1 && t.pcs[e.i] == t.pcs[|s.pcs|] == Holding
              && t.refcnt == s.refcnt + 1 && Count(t.pcs, HasReference) == Count(s.pcs, HasReference) + 1
    ensures e.SetOne? ==>
              var t := Next(s, e);
              && |t.pcs| == |s.pcs| && t.pcs[e.i] == Returned(true) && t.refcnt == 1
              && Count(t.pcs, HasReference) == Count(s.pcs, HasReference)
  {
    hide Count, Inv;
    match e {
      case FreeAct(_) => LetGoMoves(s, e);
      case DetachAct(_) => LetGoMoves(s, e);
      case ShareAct(_) => ShareMoves(s, e);
      case SetOne(i) => CountUpdate(s.pcs, i, Returned(true), HasReference);
      case _ => ReadMoves(s, e);
    }
  }

  /** The most steps a holder can still take by itself, counting both once it has shared. */
  function StepsLeft(pc: Pc): nat {
    match pc
    case Returned(_) => 0
    case AtZero => 1
    case FreeSawOne | FreeSawMore | DetachSawOne | DetachSawMore => 2
    case Holding => 3
    case ShareSawOne | ShareSawMore => 7
  }

  function AllSteps(pcs: seq<Pc>): nat {
    if pcs == [] then 0 else AllSteps(pcs[..|pcs| - 1]) + StepsLeft(pcs[|pcs| - 1])
  }

  lemma {:induction false} AllStepsUpdate(pcs: seq<Pc>, i: nat, x: Pc)
    requires i < |pcs|
    ensures AllSteps(pcs[i := x]) == AllSteps(pcs) - StepsLeft(pcs[i]) + StepsLeft(x)
    ensures AllSteps(pcs) >= StepsLeft(pcs[i])
  {
    var k := |pcs| - 1;
    if i < k {
      assert pcs[i := x][..k] == pcs[..k][i := x];
      AllStepsUpdate(pcs[..k], i, x);
    } else {
      assert pcs[i := x][..k] == pcs[..k];
    }
  }

  lemma AllStepsAppend(pcs: seq<Pc>, x: Pc)
    ensures AllSteps(pcs + [x]) == AllSteps(pcs) + StepsLeft(x)
  {
    assert (pcs + [x])[..|pcs|] == pcs;
  }

  predicate Sharing(pc: Pc) { pc.ShareSawOne? || pc.ShareSawMore? }

  /** The counter is at its limit and every holder is about to take one more. */
  predicate Full(s: System) {
    && Count(s.pcs, HasReference) == U16 - 1
    && forall i :: 0 <= i < |s.pcs| && HasReference(s.pcs[i]) ==> Sharing(s.pcs[i])
  }

  predicate AllReturned(s: System) { forall i :: 0 <= i < |s.pcs| ==> s.pcs[i].Returned? }

  /** The step that leads holder i on towards letting go. */
  function Onward(s: System, i: nat): Step
    requires i < |s.pcs|
  {
    match s.pcs[i]
    case Holding => FreeRead(i)
    case FreeSawOne | FreeSawMore => FreeAct(i)
    case DetachSawOne | DetachSawMore => DetachAct(i)
    case ShareSawOne | ShareSawMore => ShareAct(i)
    case AtZero | Returned(_) => SetOne(i)
  }

  /** One holder gets further, or becomes two with less to do together. */
  lemma OnwardOne(s: System, i: nat)
    requires i < |s.pcs| && Enabled(s, Onward(s, i))
    ensures var pcs := Next(s, Onward(s, i)).pcs;
            if Sharing(s.pcs[i]) then
              pcs == s.pcs[i := Holding] + [Holding] && 2 * StepsLeft(Holding) < StepsLeft(s.pcs[i])
            else
              |pcs| == |s.pcs| && pcs == s.pcs[i := pcs[i]] && StepsLeft(pcs[i]) < StepsLeft(s.pcs[i])
  {
  }

  lemma OnwardLess(s: System, i: nat)
    requires i < |s.pcs| && Enabled(s, Onward(s, i))
    ensures AllSteps(Next(s, Onward(s, i)).pcs) < AllSteps(s.pcs)
  {
    hide Next, StepsLeft, AllSteps, Enabled, Onward;
    OnwardOne(s, i);
    if Sharing(s.pcs[i]) {
      AllStepsUpdate(s.pcs, i, Holding);
      AllStepsAppend(s.pcs[i := Holding], Holding);
    } else {
      AllStepsUpdate(s.pcs, i, Next(s, Onward(s, i)).pcs[i]);
    }
  }

  lemma OnwardNotFull(s: System, i: nat)
    requires Inv(s) && i < |s.pcs| && Enabled(s, Onward(s, i))
    ensures !Full(Next(s, Onward(s, i)))
  {
    var e := Onward(s, i);
    StepMoves(s, e);
    hide Next, Count, Enabled, Inv;
    var t := Next(s, e);
  }

  lemma OnwardEnds(s: System, i: nat)
    requires Inv(s) && i < |s.pcs| && !s.pcs[i].Returned? && (Sharing(s.pcs[i]) ==> s.refcnt + 1 < U16)
    ensures Enabled(s, Onward(s, i))
    ensures AllSteps(Next(s, Onward(s, i)).pcs) < AllSteps(s.pcs)
    ensures !Full(Next(s, Onward(s, i)))
  {
    hide Inv, Full, Next;
    OnwardLess(s, i);
    OnwardNotFull(s, i);
  }

  lemma SomeoneCanMove(s: System) returns (i: nat)
    requires Inv(s) && !Full(s) && !AllReturned(s)
    ensures i < |s.pcs| && !s.pcs[i].Returned? && (Sharing(s.pcs[i]) ==> s.refcnt + 1 < U16)
  {
    if k :| 0 <= k < |s.pcs| && !s.pcs[k].Returned? && !Sharing(s.pcs[k]) {
      i := k;
    } else {
      i :| 0 <= i < |s.pcs| && !s.pcs[i].Returned?;
      LastIsThere(s, i);
    }
  }

  lemma {:induction false} LetsGo(s: System) returns (es: seq<Step>, t: System)
    requires Inv(s) && !Full(s)
    ensures IsRun(s, es, t) && AllReturned(t)
    decreases AllSteps(s.pcs)
  {
    hide Inv, Full, AllSteps, Enabled, Next;
    if AllReturned(s) {
      es, t := [], s;
    } else {
      var i := SomeoneCanMove(s);
      var e := Onward(s, i);
      OnwardEnds(s, i);
      StepKeepsInv(s, e);
      es, t := LetsGo(Next(s, e));
      es := [e] + es;
    }
  }

  /** With the counter at its limit and everybody about to share nobody can move. */
  lemma FullIsStuck(s: System, es: seq<Step>, t: System)
    requires Inv(s) && Full(s) && IsRun(s, es, t)
    ensures !AllReturned(t)
  {
    if es != [] {
      LastIsThere(s, es[0].i);
      assert false;
    }
    var i := CountSome(s.pcs, HasReference);
  }

  /** Wherever k holders have got to, all of them can still let go, if and only if not all of the
      references that the counter can count are about to be doubled. */
  lemma EveryRunCanEnd(k: nat, es: seq<Step>, s: System)
    requires 0 < k < U16 && IsRun(Init(k), es, s)
    ensures (exists fs, t :: IsRun(s, fs, t) && AllReturned(t)) <==> !Full(s)
  {
    InitInv(k);
    RunKeepsInv(Init(k), es, s);
    hide Inv, Full, AllReturned;
    if Full(s) {
      forall fs, t | IsRun(s, fs, t) ensures !AllReturned(t) { FullIsStuck(s, fs, t); }
    } else {
      var fs, t := LetsGo(s);
    }
  }

  /** However k holders interleave, attached mbufs among them, and taking more references on the way
      or not: nobody gets the mbuf while another holder still has a reference, and when every
      reference has been given back, exactly one caller got the mbuf and the counter is back at
      one. */
  lemma OneCallerGetsIt(k: nat, es: seq<Step>, t: System)
    requires 0 < k < U16 && IsRun(Init(k), es, t)
    ensures forall i, j :: 0 <= i < |t.pcs| && 0 <= j < |t.pcs| && IsLast(t.pcs[i]) && i != j ==>
              t.pcs[j] == Returned(false)
    ensures AllReturned(t) ==>
              t.refcnt == 1 && exists i :: 0 <= i < |t.pcs| && t.pcs[i] == Returned(true)
  {
    InitInv(k);
    RunKeepsInv(Init(k), es, t);
    forall i, j | 0 <= i < |t.pcs| && 0 <= j < |t.pcs| && IsLast(t.pcs[i]) && i != j
      ensures t.pcs[j] == Returned(false)
    {
      CountAtLeast(t.pcs, i, i, IsLast);
      if HasReference(t.pcs[j]) { CountAtLeast(t.pcs, j, j, HasReference); }
      if IsLast(t.pcs[j]) { CountAtLeast(t.pcs, i, j, IsLast); }
    }
    if AllReturned(t) {
      if Count(t.pcs, HasReference) > 0 {
        var i := CountSome(t.pcs, HasReference);
        assert false;
      }
      var i := CountSome(t.pcs, IsLast);
      assert t.pcs[i] == Returned(true);
    }
  }
}
