/** The steps of rte_pktmbuf_clone: what holds after each pass of its loop. */
module MbufClone {
  import opened Bits
  import opened MbufHeap
  import opened MbufPacket

  /** The links of the clone while it grows.  The first pass of the loop stores the new mbuf in
      its own next field, so a clone of one segment is a loop onto itself until the next pass,
      or the store after the loop, overwrites that. */
  ghost predicate Growing(mem: Memory, dst: seq<Ptr>) {
    && |dst| > 0 && AllIn(mem, dst)
    && (forall i :: 0 <= i < |dst| ==> mem[dst[i]].nbSegs == 1 && mem[dst[i]].next == NextOf(dst, i))
  }

  function NextOf(dst: seq<Ptr>, i: nat): Ptr
    requires i < |dst|
  {
    if i + 1 < |dst| then dst[i + 1] else if i == 0 then dst[0] else NULL
  }

  /** The room in the 16-bit counters that cloning src needs. */
  ghost predicate CountersFit(s: State, src: seq<Ptr>)
    requires AllIn(s.mem, src)
  {
    forall p :: p in s.mem ==> s.mem[p].refcnt + Uses(s.mem, src, p) < U16
  }

  /** Attach mi to m and store mi in the next field of prev. */
  ghost function AttachLinkS(s: State, mi: Ptr, m: Ptr, prev: Ptr): State
    requires mi in s.mem && m in s.mem && prev in s.mem && FromIndirect(s.mem[m]) in s.mem
  {
    var t := AttachS(s, mi, m);
    t.(mem := t.mem[prev := t.mem[prev].(next := mi)])
  }

  lemma ClonedNone(s: State)
    requires Inv(s)
    ensures Cloned(s, [], [], s)
  {
    forall d ensures Attached(s.mem, d) == Attached(s.mem, d) + ClonesOf(s.mem, [], [], d) {
      assert ClonesOf(s.mem, [], [], d) == {};
    }
  }

  /** Where the next segment to clone and the next fresh mbuf stand. */
  lemma CloneNext(s: State, src: seq<Ptr>, k: nat, dst: seq<Ptr>, t: State, mi: Ptr)
    requires Inv(s) && Inv(t) && AllIn(s.mem, src) && AllHeld(s, src)
    requires k < |src| && Cloned(s, src[..k], dst, t) && mi in t.free
    ensures mi in t.mem && mi !in dst && mi != NULL
    ensures var p := src[k]; var d := FromIndirect(s.mem[p]);
            && p in t.mem && d in s.mem && d == FromIndirect(t.mem[p])
            && p !in dst && d !in dst && p != mi && d != mi && Held(t, p)
  {
    hide AttachedTo, Views, HeaderOk, CountOk;
    var p := src[k];
    assert Held(s, p);
    HeldIsLive(s, p);
    assert p !in dst && FromIndirect(s.mem[p]) !in dst;
    assert HeaderOk(t.mem, mi);
    NotNull(t, mi);
  }

  lemma NotNull(s: State, p: Ptr)
    requires p in s.mem && HeaderOk(s.mem, p)
    ensures p != NULL
  {
  }

  lemma CounterRoom(s: State, src: seq<Ptr>, k: nat, dst: seq<Ptr>, t: State, d: Ptr)
    requires AllIn(s.mem, src) && CountersFit(s, src) && k < |src| && t.mem.Keys == s.mem.Keys
    requires CountersMoved(s, src[..k], dst, t) && d in s.mem && d !in dst
    requires FromIndirect(s.mem[src[k]]) == d
    ensures t.mem[d].refcnt + 1 < U16
  {
    UsesStep(s.mem, src, k, d);
    UsesPrefix(s.mem, src, k + 1, d);
  }

  /** The counter that the next attach raises still has room. */
  lemma CloneEnabled(s: State, src: seq<Ptr>, k: nat, dst: seq<Ptr>, t: State, mi: Ptr)
    requires Inv(s) && Inv(t) && AllIn(s.mem, src) && AllHeld(s, src) && CountersFit(s, src)
    requires k < |src| && Cloned(s, src[..k], dst, t) && mi in t.free
    ensures mi in t.mem && Enabled(AllocS(t, mi), Attach(mi, src[k]))
  {
    hide AttachedTo, Views, HeaderOk, Inv, CountersFit, AllHeld;
    CloneNext(s, src, k, dst, t, mi);
    CounterRoom(s, src, k, dst, t, FromIndirect(s.mem[src[k]]));
    Pooled(t, mi);
  }

  lemma Pooled(s: State, p: Ptr)
    requires Inv(s) && p in s.free
    ensures p in s.mem && RawFreeable(s.mem[p]) && s.refs.Keys == s.mem.Keys
  {
    assert CountOk(s, p);
  }

  lemma ClonesOfStep(mem: Memory, src: seq<Ptr>, k: nat, dst: seq<Ptr>, mi: Ptr, d: Ptr)
    requires k < |src| && |dst| == k && AllIn(mem, src)
    ensures ClonesOf(mem, src[..k + 1], dst + [mi], d)
         == ClonesOf(mem, src[..k], dst, d) + (if FromIndirect(mem[src[k]]) == d then {mi} else {})
  {
    var a := ClonesOf(mem, src[..k + 1], dst + [mi], d);
    var b := ClonesOf(mem, src[..k], dst, d);
    forall q ensures q in a <==> q in b || (FromIndirect(mem[src[k]]) == d && q == mi) {
      if q in b {
        var i :| 0 <= i < k && FromIndirect(mem[src[..k][i]]) == d && dst[i] == q;
        assert src[..k + 1][i] == src[..k][i] && (dst + [mi])[i] == q;
      }
      if FromIndirect(mem[src[k]]) == d && q == mi {
        assert src[..k + 1][k] == src[k] && (dst + [mi])[k] == q;
      }
      if q in a {
        var i :| 0 <= i < k + 1 && FromIndirect(mem[src[..k + 1][i]]) == d && (dst + [mi])[i] == q;
        if i < k { assert src[..k][i] == src[..k + 1][i]; }
      }
    }
  }

  lemma UsesStep(mem: Memory, src: seq<Ptr>, k: nat, d: Ptr)
    requires k < |src| && AllIn(mem, src)
    ensures Uses(mem, src[..k + 1], d)
         == Uses(mem, src[..k], d) + (if FromIndirect(mem[src[k]]) == d then 1 else 0)
  {
    assert src[..k + 1][..k] == src[..k] && src[..k + 1][k] == src[k];
  }

  /** The headers after one more segment was allocated, attached and linked. */
  ghost predicate CloneStepped(t: State, mi: Ptr, m: Ptr, prev: Ptr, u: State) {
    && mi in t.free && mi in t.mem && mi in t.refs && m in t.mem && FromIndirect(t.mem[m]) in t.mem
    && var d := FromIndirect(t.mem[m]);
    && u.mem.Keys == t.mem.Keys && u.free == t.free - {mi} && u.refs == t.refs[mi := 1]
    && (forall p :: p in t.mem && p != mi && p != prev ==>
          u.mem[p] == t.mem[p].(refcnt := t.mem[p].refcnt + (if p == d then 1 else 0)))
    && (prev in t.mem && prev != mi ==> u.mem[prev] == t.mem[prev].(next := mi))
    && u.mem[mi].indirect && SameView(u.mem[mi], t.mem[m]) && u.mem[mi].nbSegs == 1
    && u.mem[mi].next == (if prev == mi then mi else NULL)
    && (forall e :: Attached(u.mem, e) == Attached(t.mem, e) + (if e == d then {mi} else {}))
  }

  lemma AllocAttach(t: State, mi: Ptr, m: Ptr)
    requires Inv(t) && mi in t.free && mi in t.mem && Enabled(AllocS(t, mi), Attach(mi, m))
    ensures var u := AttachS(AllocS(t, mi), mi, m);
            && Inv(u) && mi != NULL && mi in u.mem
            && m in t.mem && FromIndirect(t.mem[m]) in t.mem
            && CloneStepped(t, mi, m, mi, u.(mem := u.mem[mi := u.mem[mi].(next := mi)]))
            && u.mem[mi].next == NULL
  {
    hide HeaderOk, CountOk, Holders;
    var a := AllocS(t, mi);
    AllocKeepsInv(t, mi);
    assert HeaderOk(t.mem, mi);
    NotNull(t, mi);
    AttachKeepsInv(a, mi, m);
    AttachShape(a, mi, m);
    var u := AttachS(a, mi, m);
    var v := u.(mem := u.mem[mi := u.mem[mi].(next := mi)]);
    AttachedSame(u.mem, mi, v.mem[mi]);
  }

  lemma LinkKeeps(t: State, mi: Ptr, m: Ptr, prev: Ptr, u: State)
    requires Inv(u) && mi != NULL && prev in u.mem && prev !in u.free
    ensures Inv(u.(mem := u.mem[prev := u.mem[prev].(next := mi)]))
    ensures forall e :: Attached(u.mem[prev := u.mem[prev].(next := mi)], e) == Attached(u.mem, e)
  {
    assert HeaderOk(u.mem, prev);
    EditKeepsInv(u, prev, u.mem[prev].(next := mi));
  }

  lemma CloneStepShape(t: State, mi: Ptr, m: Ptr, prev: Ptr)
    requires Inv(t) && mi in t.free && mi in t.mem && Enabled(AllocS(t, mi), Attach(mi, m))
    requires prev == mi || (prev in t.mem && prev !in t.free && t.mem[prev].indirect && prev != m)
    ensures prev in t.mem
    ensures Inv(AttachLinkS(AllocS(t, mi), mi, m, prev))
    ensures CloneStepped(t, mi, m, prev, AttachLinkS(AllocS(t, mi), mi, m, prev))
  {
    hide HeaderOk, CountOk, Holders, Inv;
    AllocAttach(t, mi, m);
    var u := AttachS(AllocS(t, mi), mi, m);
    if prev != mi {
      assert FromIndirect(t.mem[m]) != prev by { OwnerDirect(t, m); }
    }
    LinkKeeps(t, mi, m, prev, u);
    var v := u.(mem := u.mem[mi := u.mem[mi].(next := mi)]);
    AttachedSame(u.mem, mi, v.mem[mi]);
  }

  lemma OwnerDirect(s: State, p: Ptr)
    requires Inv(s) && p in s.mem
    ensures FromIndirect(s.mem[p]) in s.mem && !s.mem[FromIndirect(s.mem[p])].indirect
  {
    assert HeaderOk(s.mem, p);
  }

  lemma CloneStep(s: State, src: seq<Ptr>, k: nat, dst: seq<Ptr>, t: State, mi: Ptr, prev: Ptr, u: State)
    requires AllIn(s.mem, src) && k < |src| && Cloned(s, src[..k], dst, t)
    requires src[k] !in dst && mi !in dst && FromIndirect(s.mem[src[k]]) !in dst && mi != src[k]
    requires FromIndirect(s.mem[src[k]]) in s.mem && FromIndirect(s.mem[src[k]]) != mi
    requires CloneStepped(t, mi, src[k], prev, u)
    requires prev == mi || prev in dst
    ensures Cloned(s, src[..k + 1], dst + [mi], u)
  {
    StepTaken(s, dst, t, mi, u);
    StepAttached(s, src, k, dst, t, mi, prev, u);
    StepCounters(s, src, k, dst, t, mi, prev, u);
    StepViews(s, src, k, dst, t, mi, prev, u);
  }

  lemma StepTaken(s: State, dst: seq<Ptr>, t: State, mi: Ptr, u: State)
    requires Taken(s, dst, t) && mi in t.free && mi in t.refs && mi !in dst
    requires u.mem.Keys == t.mem.Keys && u.free == t.free - {mi} && u.refs == t.refs[mi := 1]
    ensures Taken(s, dst + [mi], u)
  {
    assert (set p | p in dst + [mi]) == (set p | p in dst) + {mi};
  }

  lemma StepAttached(s: State, src: seq<Ptr>, k: nat, dst: seq<Ptr>, t: State, mi: Ptr, prev: Ptr, u: State)
    requires AllIn(s.mem, src) && k < |src| && |dst| == k && AttachedTo(s, src[..k], dst, t)
    requires CloneStepped(t, mi, src[k], prev, u) && FromIndirect(t.mem[src[k]]) == FromIndirect(s.mem[src[k]])
    ensures AttachedTo(s, src[..k + 1], dst + [mi], u)
  {
    forall e ensures Attached(u.mem, e) == Attached(s.mem, e) + ClonesOf(s.mem, src[..k + 1], dst + [mi], e) {
      ClonesOfStep(s.mem, src, k, dst, mi, e);
    }
  }

  lemma StepCounters(s: State, src: seq<Ptr>, k: nat, dst: seq<Ptr>, t: State, mi: Ptr, prev: Ptr, u: State)
    requires AllIn(s.mem, src) && k < |src| && t.mem.Keys == s.mem.Keys && CountersMoved(s, src[..k], dst, t)
    requires CloneStepped(t, mi, src[k], prev, u) && FromIndirect(t.mem[src[k]]) == FromIndirect(s.mem[src[k]])
    requires prev == mi || prev in dst
    ensures CountersMoved(s, src[..k + 1], dst + [mi], u)
  {
    forall p | p in s.mem && p !in dst + [mi]
      ensures u.mem[p] == s.mem[p].(refcnt := s.mem[p].refcnt + Uses(s.mem, src[..k + 1], p))
    {
      UsesStep(s.mem, src, k, p);
    }
  }

  lemma StepViews(s: State, src: seq<Ptr>, k: nat, dst: seq<Ptr>, t: State, mi: Ptr, prev: Ptr, u: State)
    requires AllIn(s.mem, src) && k < |src| && |dst| == k && AllIn(t.mem, dst) && Views(s, src[..k], dst, t)
    requires CloneStepped(t, mi, src[k], prev, u) && SameView(t.mem[src[k]], s.mem[src[k]])
    requires mi !in dst
    ensures AllIn(u.mem, dst + [mi]) && Views(s, src[..k + 1], dst + [mi], u)
  {
    forall i | 0 <= i < k + 1
      ensures var q := (dst + [mi])[i];
              q in u.mem && u.mem[q].indirect && SameView(u.mem[q], s.mem[src[..k + 1][i]])
    {
      if i < k { assert src[..k][i] == src[i] && dst[i] in t.mem; }
    }
  }

  // ---------- The loop as a whole ----------

  /** After k passes of the loop: k segments cloned, and the clone linked as far as it goes. */
  ghost predicate CloneDone(s: State, src: seq<Ptr>, k: nat, dst: seq<Ptr>, t: State)
    requires AllIn(s.mem, src) && k <= |src|
  {
    Inv(t) && Cloned(s, src[..k], dst, t) && Growing(t.mem, dst)
  }

  lemma GrowingStep(t: State, dst: seq<Ptr>, mi: Ptr, m: Ptr, u: State)
    requires Growing(t.mem, dst) && Distinct(dst) && mi !in dst && m !in dst
    requires CloneStepped(t, mi, m, dst[|dst| - 1], u)
    requires FromIndirect(t.mem[m]) !in dst
    ensures Growing(u.mem, dst + [mi])
  {
    forall i | 0 <= i < |dst| + 1
      ensures var q := (dst + [mi])[i];
              q in u.mem && u.mem[q].nbSegs == 1 && u.mem[q].next == NextOf(dst + [mi], i)
    {
      if i < |dst| - 1 { assert dst[i] != dst[|dst| - 1]; }
    }
  }

  /** One pass of the loop, first or later. */
  lemma ClonePass(s: State, src: seq<Ptr>, k: nat, dst: seq<Ptr>, t: State, mi: Ptr)
    requires Inv(s) && AllIn(s.mem, src) && AllHeld(s, src) && CountersFit(s, src) && k < |src|
    requires if k == 0 then t == s && dst == [] else CloneDone(s, src, k, dst, t)
    requires mi in t.free
    ensures mi in t.mem && Enabled(AllocS(t, mi), Attach(mi, src[k]))
    ensures var prev := if k == 0 then mi else dst[|dst| - 1];
            && prev in t.mem
            && CloneDone(s, src, k + 1, dst + [mi], AttachLinkS(AllocS(t, mi), mi, src[k], prev))
  {
    hide Inv, AttachLinkS, AllHeld, CountersFit, Taken, AttachedTo, CountersMoved, Views, CloneStepped, Growing;
    if k == 0 {
      ClonedNone(s);
      assert src[..0] == [];
    }
    CloneNext(s, src, k, dst, t, mi);
    CloneEnabled(s, src, k, dst, t, mi);
    var prev := if k == 0 then mi else dst[|dst| - 1];
    if k > 0 { LastOfClone(s, src[..k], dst, t); }
    CloneStepShape(t, mi, src[k], prev);
    var u := AttachLinkS(AllocS(t, mi), mi, src[k], prev);
    CloneStep(s, src, k, dst, t, mi, prev, u);
    if k == 0 {
      GrowingFirst(t, mi, src[k], u);
      assert dst + [mi] == [mi];
    } else {
      TakenDistinct(s, dst, t);
      GrowingStep(t, dst, mi, src[k], u);
    }
  }

  lemma GrowingFirst(t: State, mi: Ptr, m: Ptr, u: State)
    requires CloneStepped(t, mi, m, mi, u)
    ensures Growing(u.mem, [mi])
  {
  }

  lemma TakenDistinct(s: State, dst: seq<Ptr>, t: State)
    requires Taken(s, dst, t)
    ensures Distinct(dst)
  {
  }

  lemma LastOfClone(s: State, src: seq<Ptr>, dst: seq<Ptr>, t: State)
    requires AllIn(s.mem, src) && Cloned(s, src, dst, t) && |dst| > 0
    ensures var q := dst[|dst| - 1]; q in dst && q in t.mem && q !in t.free && t.mem[q].indirect
  {
    hide AttachedTo, CountersMoved;
    assert dst[|dst| - 1] in dst;
  }

  /** The stores after the loop: end the chain, and let its head count segments and bytes. */
  ghost function ClosedS(t: State, dst: seq<Ptr>, pktLen: nat): State
    requires |dst| > 0 && AllIn(t.mem, dst)
  {
    var last := dst[|dst| - 1];
    var mem := t.mem[last := t.mem[last].(next := NULL)];
    t.(mem := mem[dst[0] := mem[dst[0]].(nbSegs := |dst|, pktLen := pktLen)])
  }

  lemma ClosedInv(t: State, dst: seq<Ptr>, pktLen: nat)
    requires Inv(t) && Growing(t.mem, dst) && |dst| < U16 && pktLen < U32
    requires Distinct(dst) && forall i :: 0 <= i < |dst| ==> dst[i] !in t.free
    ensures Inv(ClosedS(t, dst, pktLen))
    ensures forall d :: Attached(ClosedS(t, dst, pktLen).mem, d) == Attached(t.mem, d)
    ensures Linked(ClosedS(t, dst, pktLen).mem, dst[0], dst)
  {
    hide Holders, CountOk, Attached, Inv;
    var last := dst[|dst| - 1];
    var x := t.mem[last].(next := NULL);
    forall i | 0 <= i < |dst| ensures HeaderOk(t.mem, dst[i]) && dst[i] != NULL { LiveHeader(t, dst[i]); }
    EditKeepsInv(t, last, x);
    var u := t.(mem := t.mem[last := x]);
    LiveHeader(u, dst[0]);
    assert |dst| > 1 ==> dst[0] != last;
    EditKeepsInv(u, dst[0], u.mem[dst[0]].(nbSegs := |dst|, pktLen := pktLen));
    ClosedLinked(t, dst, pktLen);
  }

  lemma LiveHeader(s: State, p: Ptr)
    requires Inv(s) && p in s.mem
    ensures HeaderOk(s.mem, p)
  {
  }

  lemma ClosedLinked(t: State, dst: seq<Ptr>, pktLen: nat)
    requires Growing(t.mem, dst) && Distinct(dst) && forall i :: 0 <= i < |dst| ==> dst[i] != NULL
    ensures Linked(ClosedS(t, dst, pktLen).mem, dst[0], dst)
  {
    var v := ClosedS(t, dst, pktLen);
    forall i | 0 <= i < |dst| - 1 ensures v.mem[dst[i]].next == dst[i + 1] {
      assert dst[i] != dst[|dst| - 1];
    }
  }

  lemma ClosedCloned(s: State, src: seq<Ptr>, dst: seq<Ptr>, t: State, pktLen: nat)
    requires AllIn(s.mem, src) && Cloned(s, src, dst, t) && |dst| > 0
    requires forall d :: Attached(ClosedS(t, dst, pktLen).mem, d) == Attached(t.mem, d)
    ensures Cloned(s, src, dst, ClosedS(t, dst, pktLen))
  {
    var v := ClosedS(t, dst, pktLen);
    assert dst[0] in dst && dst[|dst| - 1] in dst;
    assert forall p :: p in s.mem && p !in dst ==> v.mem[p] == t.mem[p];
    assert forall i :: 0 <= i < |dst| ==>
             SameView(v.mem[dst[i]], t.mem[dst[i]]) && v.mem[dst[i]].indirect == t.mem[dst[i]].indirect;
  }

  /** The chain after the loop, whether or not all of src was cloned. */
  lemma CloneClosed(s: State, src: seq<Ptr>, k: nat, dst: seq<Ptr>, t: State, pktLen: nat)
    requires AllIn(s.mem, src) && 0 < k <= |src| < U16 && pktLen < U32 && CloneDone(s, src, k, dst, t)
    ensures |dst| == k && AllIn(t.mem, dst)
    ensures var v := ClosedS(t, dst, pktLen);
            && Inv(v) && Cloned(s, src[..k], dst, v)
            && Linked(v.mem, dst[0], dst) && AllHeld(v, dst)
            && v.mem[dst[0]].nbSegs == k && v.mem[dst[0]].pktLen == pktLen
  {
    hide Inv, AttachedTo, CountersMoved, Views;
    assert forall i :: 0 <= i < |dst| ==> dst[i] in dst;
    ClosedInv(t, dst, pktLen);
    ClosedCloned(s, src[..k], dst, t, pktLen);
    ClonedHeld(s, src[..k], dst, ClosedS(t, dst, pktLen));
  }

  lemma ClonedHeld(s: State, src: seq<Ptr>, dst: seq<Ptr>, t: State)
    requires AllIn(s.mem, src) && Cloned(s, src, dst, t) && Inv(t)
    ensures AllHeld(t, dst)
  {
    hide AttachedTo, CountersMoved, Views, HeaderOk, CountOk;
    forall i | 0 <= i < |dst| ensures Held(t, dst[i]) { assert dst[i] in dst; }
  }

  // ---------- What is left in the pool ----------

  /** All of segs come from one pool. */
  ghost predicate FromPool(s: State, segs: seq<Ptr>, mp: Pool) {
    forall i :: 0 <= i < |segs| ==> segs[i] in s.mem && s.mem[segs[i]].pool == mp
  }

  lemma FromPoolNone(s: State, mp: Pool)
    ensures FromPool(s, [], mp)
  {
  }

  lemma FromPoolFirst(s: State, mp: Pool, mi: Ptr)
    requires mi in s.mem && s.mem[mi].pool == mp
    ensures FromPool(s, [mi], mp)
  {
  }

  lemma FromPoolNext(s: State, src: seq<Ptr>, k: nat, dst: seq<Ptr>, t: State, mp: Pool, mi: Ptr)
    requires AllIn(s.mem, src) && k <= |src| && CloneDone(s, src, k, dst, t) && FromPool(s, dst, mp)
    requires mi in t.free && mi in t.mem && t.mem[mi].pool == mp
    ensures FromPool(s, dst + [mi], mp)
  {
    hide AttachedTo, Views, Inv, Growing, Uses;
    assert mi !in dst;
  }

  lemma {:induction false} DistinctSize(segs: seq<Ptr>)
    requires Distinct(segs)
    ensures |set p | p in segs| == |segs|
  {
    if segs != [] {
      var k := |segs| - 1;
      DistinctSize(segs[..k]);
      assert (set p | p in segs) == (set p | p in segs[..k]) + {segs[k]};
    }
  }

  /** Cloning takes one mbuf of the pool for each segment cloned. */
  lemma FreeLeft(s: State, src: seq<Ptr>, k: nat, dst: seq<Ptr>, t: State, mp: Pool)
    requires AllIn(s.mem, src) && k <= |src| && CloneDone(s, src, k, dst, t) && FromPool(s, dst, mp)
    ensures |FreeOf(s, mp)| == |FreeOf(t, mp)| + |dst|
  {
    hide AttachedTo, Views, Inv, Growing, Uses;
    var taken := set p | p in dst;
    DistinctSize(dst);
    assert forall p :: p in taken ==> p in FreeOf(s, mp);
    forall p ensures p in FreeOf(t, mp) <==> p in FreeOf(s, mp) - taken {
      if p in s.mem && p !in dst { assert t.mem[p] == s.mem[p].(refcnt := t.mem[p].refcnt); }
    }
    assert FreeOf(t, mp) == FreeOf(s, mp) - taken;
  }

  // ---------- The result ----------

  /** A complete clone is a packet with the bytes, the segment count and the length of the
      original, and the original is still the packet it was. */
  lemma CloneIsPacket(s: State, head: Ptr, src: seq<Ptr>, dst: seq<Ptr>, t: State)
    requires Inv(s) && Inv(t) && Packet(s, head, src)
    requires Cloned(s, src, dst, t)
    requires Linked(t.mem, dst[0], dst) && AllHeld(t, dst)
    requires t.mem[dst[0]].nbSegs == |src| && t.mem[dst[0]].pktLen == s.mem[head].pktLen
    ensures Packet(t, dst[0], dst) && Packet(t, head, src)
    ensures AllData(s.mem, src) && AllData(t.mem, src) && AllData(t.mem, dst)
    ensures Bytes(t.mem, dst) == Bytes(s.mem, src) == Bytes(t.mem, src)
  {
    ClonedBytes(s, src, dst, t);
    SourceKept(s, src, dst, t);
  }

  lemma SourceKept(s: State, src: seq<Ptr>, dst: seq<Ptr>, t: State)
    requires Inv(s) && AllIn(s.mem, src) && AllHeld(s, src) && Cloned(s, src, dst, t)
    ensures AllHeld(t, src)
    ensures forall i :: 0 <= i < |src| ==>
              src[i] in t.mem && t.mem[src[i]] == s.mem[src[i]].(refcnt := t.mem[src[i]].refcnt)
  {
    hide AttachedTo, Views, HeaderOk, CountOk;
    forall i | 0 <= i < |src|
      ensures Held(t, src[i]) && t.mem[src[i]] == s.mem[src[i]].(refcnt := t.mem[src[i]].refcnt)
    {
      assert Held(s, src[i]);
      HeldIsLive(s, src[i]);
      assert src[i] !in dst;
    }
  }
}
