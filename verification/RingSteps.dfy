/** A whole call of the ring is a run of the protocol: the steps of RingProtocol, one after the
    other, fill and empty the same slots as the copies of RingCopy. */
module RingSteps {
  import opened Bits
  import opened RingCopy
  import opened RingProtocol

  lemma {:induction false} RunThen<T>(r: Ring<T>, h: History<T>, es: seq<Step<T>>, r1: Ring<T>, h1: History<T>,
                                      e: Step<T>)
    requires IsRun(r, h, es, r1, h1) && Enabled(r1, e)
    ensures IsRun(r, h, es + [e], Next(r1, e), Record(r1, h1, e))
    decreases |es|
  {
    if es == [] {
      assert es + [e] == [e];
    } else {
      RunThen(Next(r, es[0]), Record(r, h, es[0]), es[1..], r1, h1, e);
      assert (es + [e])[1..] == es[1..] + [e];
    }
  }

  lemma RunNothing<T>(r: Ring<T>, h: History<T>)
    ensures IsRun(r, h, [], r, h)
  {
  }

  /** Storing the next object is filling one slot more. */
  lemma FilledNext<T>(slots: seq<T>, head: nat, objs: seq<T>, k: nat)
    requires |slots| > 0 && k < |objs| <= |slots|
    ensures Filled(slots, head, objs[..k + 1]) == Filled(slots, head, objs[..k])[Slot(head + k, |slots|) := objs[k]]
  {
    var at := Slot(head + k, |slots|);
    SlotBehind(head, k, |slots|);
    var a, b := Filled(slots, head, objs[..k + 1]), Filled(slots, head, objs[..k])[at := objs[k]];
    forall i | 0 <= i < |slots| ensures a[i] == b[i] {
      if i != at && Behind(i, head, |slots|) == k {
        BehindTwice(i, head, |slots|);
      }
    }
  }

  /** A slot that is k behind head is the slot of index head + k. */
  lemma BehindTwice(i: nat, head: nat, size: nat)
    requires i < size
    ensures Slot(head + Behind(i, head, size), size) == i
  {
    var k := (i - head) % size;
    var q := (i - head) / size;
    assert i - head == size * q + k;
    assert head + k == size * (-q) + i by { assert size * (-q) == -(size * q); }
    ModOf(size, -q, i);
  }

  /** The ring while it stores, k objects along. */
  ghost function Storing<T>(r: Ring<T>, objs: seq<T>, k: nat): Ring<T>
    requires |r.slots| > 0 && k <= |objs|
  {
    r.(slots := Filled(r.slots, r.prodHead, objs[..k]), prodHead := Wrap(r.prodHead + |objs|),
       producer := PStoring(r.prodHead, objs, k))
  }

  lemma {:induction false} StoresRun<T>(r: Ring<T>, h: History<T>, es: seq<Step<T>>, r0: Ring<T>, objs: seq<T>,
                                        h1: History<T>, k: nat)
    returns (fs: seq<Step<T>>)
    requires WellSized(r) && |r.slots| > 0 && k <= |objs| <= |r.slots|
    requires IsRun(r, h, es, r0, h1) && r0 == Storing(r, objs, 0)
    ensures IsRun(r, h, fs, Storing(r, objs, k), h1)
    decreases k
  {
    hide IsRun, Filled, Wrap, Slot, Ahead;
    if k == 0 {
      fs := es;
    } else {
      fs := StoresRun(r, h, es, r0, objs, h1, k - 1);
      var t := Storing(r, objs, k - 1);
      FilledNext(r.slots, r.prodHead, objs, k - 1);
      assert Next(t, Store) == Storing(r, objs, k);
      RunThen(r, h, fs, t, h1, Store);
      fs := fs + [Store];
    }
  }

  /** Filling the slots of the objects granted, and publishing them. */
  lemma FillAndPublish<T>(r: Ring<T>, h: History<T>, es: seq<Step<T>>, objs: seq<T>, h1: History<T>)
    returns (fs: seq<Step<T>>)
    requires WellSized(r) && 0 < |objs| <= |r.slots| && r.producer.PIdle?
    requires IsRun(r, h, es, Storing(r, objs, 0), h1)
    ensures var head := Wrap(r.prodHead + |objs|);
            IsRun(r, h, fs, r.(slots := Filled(r.slots, r.prodHead, objs), prodHead := head, prodTail := head),
                  h1.(published := h1.published + |objs|))
  {
    hide Filled, Wrap, Ahead, IsRun, Slot;
    fs := StoresRun(r, h, es, Storing(r, objs, 0), objs, h1, |objs|);
    assert objs[..|objs|] == objs;
    RunThen(r, h, fs, Storing(r, objs, |objs|), h1, Publish);
    fs := fs + [Publish];
  }

  lemma ReservedIs<T>(wanted: seq<T>, fixed: bool, room: nat)
    ensures var objs := Reserved(wanted, fixed, room);
            && (|wanted| <= room ==> objs == wanted)
            && (|wanted| > room && fixed ==> objs == [])
            && (|wanted| > room && !fixed ==> |objs| == room && objs <= wanted)
  {
  }

  /** An enqueue: reserve, fill the slots of the objects granted, publish.  Granted are all that are
      wanted if there is room for them; otherwise none, or the first ones that there is room for. */
  lemma EnqueueIsRun<T>(r: Ring<T>, h: History<T>, wanted: seq<T>, fixed: bool) returns (es: seq<Step<T>>, objs: seq<T>)
    requires WellSized(r) && |r.slots| > 0 && r.producer.PIdle? && r.prodHead < U32
    requires Ahead(r.capacity + r.consTail, r.prodHead) <= |r.slots|
    ensures var room := Ahead(r.capacity + r.consTail, r.prodHead);
            && (|wanted| <= room ==> objs == wanted)
            && (|wanted| > room && fixed ==> objs == [])
            && (|wanted| > room && !fixed ==> |objs| == room && objs <= wanted)
    ensures var head := Wrap(r.prodHead + |objs|);
            IsRun(r, h, es,
                  if objs == [] then r
                  else r.(slots := Filled(r.slots, r.prodHead, objs), prodHead := head, prodTail := head),
                  h.(sent := h.sent + objs, published := h.published + |objs|))
  {
    ReservedIs(wanted, fixed, Ahead(r.capacity + r.consTail, r.prodHead));
    hide Filled, Wrap, Ahead, IsRun, Slot, Reserved;
    objs := Reserved(wanted, fixed, Ahead(r.capacity + r.consTail, r.prodHead));
    RunNothing(r, h);
    var e0, e1 := Reserve(wanted, fixed), MoveProdHead;
    var r0 := Next(r, e0);
    RunThen(r, h, [], r, h, e0);
    assert [] + [e0] == [e0];
    RunThen(r, h, [e0], r0, h, e1);
    es := [e0, e1];
    assert [e0] + [e1] == es;
    if objs == [] {
      assert h.sent + objs == h.sent;
    } else {
      assert Next(r0, e1) == Storing(r, objs, 0) by {
        NothingFilled(r.slots, r.prodHead);
        assert objs[..0] == [];
      }
      es := FillAndPublish(r, h, es, objs, h.(sent := h.sent + objs));
    }
  }

  lemma NothingFilled<T>(slots: seq<T>, head: nat)
    requires |slots| > 0
    ensures Filled(slots, head, []) == slots
  {
  }

  /** The ring while it loads, k objects along. */
  ghost function Loading<T>(r: Ring<T>, n: nat, k: nat): Ring<T>
    requires |r.slots| > 0
  {
    r.(consHead := Wrap(r.consHead + n), consumer := CLoading(r.consHead, n, Window(r.slots, r.consHead, k)))
  }

  lemma {:induction false} LoadsRun<T>(r: Ring<T>, h: History<T>, es: seq<Step<T>>, r0: Ring<T>, n: nat, h1: History<T>,
                                       k: nat)
    returns (fs: seq<Step<T>>)
    requires WellSized(r) && |r.slots| > 0 && k <= n
    requires IsRun(r, h, es, r0, h1) && r0 == Loading(r, n, 0)
    ensures IsRun(r, h, fs, Loading(r, n, k), h1)
    decreases k
  {
    hide IsRun, Wrap, Slot, Ahead;
    if k == 0 {
      fs := es;
    } else {
      fs := LoadsRun(r, h, es, r0, n, h1, k - 1);
      var t := Loading(r, n, k - 1);
      assert Window(r.slots, r.consHead, k)
          == Window(r.slots, r.consHead, k - 1) + [r.slots[Slot(r.consHead + k - 1, |r.slots|)]];
      assert Next(t, Load) == Loading(r, n, k);
      RunThen(r, h, fs, t, h1, Load);
      fs := fs + [Load];
    }
  }

  /** A peek, a block and its release: the block receives what the window from the consumer's head
      holds, and only then do the slots become free. */
  lemma DequeueIsRun<T>(r: Ring<T>, h: History<T>, wanted: nat) returns (es: seq<Step<T>>)
    requires WellSized(r) && |r.slots| > 0 && r.consumer.CIdle?
    ensures var entries := Ahead(r.prodTail, r.consHead);
            var n := if wanted > entries then entries else wanted;
            var head := Wrap(r.consHead + n);
            var got := Window(r.slots, r.consHead, n);
            IsRun(r, h, es,
                  if n == 0 then r else r.(consHead := head, consTail := head),
                  h.(taken := h.taken + n, released := h.released + n, received := h.received + got))
  {
    hide Wrap, Ahead, IsRun, Slot;
    var entries := Ahead(r.prodTail, r.consHead);
    var n := if wanted > entries then entries else wanted;
    RunNothing(r, h);
    var e0, e1 := Look(wanted), MoveConsHead;
    var r0 := Next(r, e0);
    RunThen(r, h, [], r, h, e0);
    assert [] + [e0] == [e0];
    RunThen(r, h, [e0], r0, h, e1);
    es := [e0, e1];
    assert [e0] + [e1] == es;
    var h1 := h.(taken := h.taken + n);
    if n == 0 {
      assert h.received + Window(r.slots, r.consHead, 0) == h.received;
    } else {
      assert Window(r.slots, r.consHead, 0) == [];
      assert Next(r0, e1) == Loading(r, n, 0);
      es := LoadsRun(r, h, es, Loading(r, n, 0), n, h1, n);
      var t := Loading(r, n, n);
      RunThen(r, h, es, t, h1, RunBlock);
      es := es + [RunBlock];
      var u := Next(t, RunBlock);
      RunThen(r, h, es, u, Record(t, h1, RunBlock), Release);
      es := es + [Release];
    }
  }
}
