/** What linearize's copies leave in the head's buffer: each of them reads what the copies before
    it have left, so a later segment in the same buffer may be overwritten before its turn. */
module MbufGather {
  import opened Bits
  import opened MbufHeap
  import opened MbufPacket
  import opened MbufLayout

  // ---------- Writing into a buffer ----------

  ghost predicate Fits(room: seq<Byte>, at: nat, bytes: seq<Byte>) {
    at + |bytes| <= |room|
  }

  ghost function Filled(room: seq<Byte>, at: nat, bytes: seq<Byte>): (r: seq<Byte>)
    requires Fits(room, at, bytes)
    ensures |r| == |room|
  {
    room[..at] + bytes + room[at + |bytes|..]
  }

  lemma FilledStep(room: seq<Byte>, at: nat, a: seq<Byte>, b: seq<Byte>)
    requires Fits(room, at, a + b)
    ensures Fits(room, at, a) && Fits(Filled(room, at, a), at + |a|, b)
    ensures Filled(Filled(room, at, a), at + |a|, b) == Filled(room, at, a + b)
  {
  }

  lemma FilledElsewhere(room: seq<Byte>, at: nat, bytes: seq<Byte>, lo: nat, hi: nat)
    requires Fits(room, at, bytes) && lo <= hi <= |room| && (hi <= at || at + |bytes| <= lo)
    ensures Filled(room, at, bytes)[lo..hi] == room[lo..hi]
  {
    var r := Filled(room, at, bytes);
    forall i | lo <= i < hi ensures r[i] == room[i] {}
    assert forall i :: 0 <= i < hi - lo ==> r[lo..hi][i] == r[lo + i] && room[lo..hi][i] == room[lo + i];
  }

  // ---------- The copies ----------

  /** The bytes of a segment while the buffer of d holds room. */
  ghost function Shown(mem: Memory, p: Ptr, d: Ptr, room: seq<Byte>): (r: seq<Byte>)
    requires DataOk(mem, p) && d in mem && |room| == |mem[d].room|
    ensures |r| == mem[p].dataLen
  {
    var from := if FromIndirect(mem[p]) == d then room else mem[FromIndirect(mem[p])].room;
    from[mem[p].dataOff..mem[p].dataOff + mem[p].dataLen]
  }

  /** The length of the first k of rest. */
  ghost function LenTo(mem: Memory, rest: seq<Ptr>, k: nat): (n: nat)
    requires AllIn(mem, rest) && k <= |rest|
    ensures n <= SumLen(mem, rest)
    ensures k < |rest| ==> n + mem[rest[k]].dataLen <= SumLen(mem, rest)
  {
    LenToBound(mem, rest, k);
    SumLen(mem, rest[..k])
  }

  lemma LenToBound(mem: Memory, rest: seq<Ptr>, k: nat)
    requires AllIn(mem, rest) && k <= |rest|
    ensures SumLen(mem, rest[..k]) <= SumLen(mem, rest)
    ensures k < |rest| ==> SumLen(mem, rest[..k]) + mem[rest[k]].dataLen <= SumLen(mem, rest)
  {
    if k < |rest| {
      SumLenSplit(mem, rest, k);
    } else {
      assert rest[..k] == rest;
    }
  }

  lemma LenToStep(mem: Memory, rest: seq<Ptr>, k: nat)
    requires AllIn(mem, rest) && k < |rest|
    ensures LenTo(mem, rest, 0) == 0
    ensures LenTo(mem, rest, k + 1) == LenTo(mem, rest, k) + mem[rest[k]].dataLen
  {
    var a := rest[..k + 1];
    SumLenSplit(mem, a, k);
    assert a[..k] == rest[..k] && a[k + 1..] == [];
  }

  lemma LenToMono(mem: Memory, rest: seq<Ptr>, j: nat, k: nat)
    requires AllIn(mem, rest) && j <= k <= |rest|
    ensures LenTo(mem, rest, j) <= LenTo(mem, rest, k)
    ensures j < k ==> LenTo(mem, rest, j) + mem[rest[j]].dataLen <= LenTo(mem, rest, k)
  {
    LenToBound(mem, rest[..k], j);
    assert rest[..k][..j] == rest[..j];
  }

  /** The buffer of d after the first k of rest were copied into it, one behind the other from at
      on, each copy reading what the copies before it have left. */
  ghost function CopiedRoom(mem: Memory, d: Ptr, at: nat, rest: seq<Ptr>, k: nat): (room: seq<Byte>)
    requires AllData(mem, rest) && d in mem && k <= |rest| && at + SumLen(mem, rest) <= |mem[d].room|
    ensures |room| == |mem[d].room|
  {
    if k == 0 then mem[d].room
    else
      var room := CopiedRoom(mem, d, at, rest, k - 1);
      Filled(room, at + LenTo(mem, rest, k - 1), Shown(mem, rest[k - 1], d, room))
  }

  /** The bytes of p lie outside [from, to) of the buffer of d. */
  ghost predicate Outside(mem: Memory, p: Ptr, d: Ptr, from: nat, to: nat)
    requires p in mem
  {
    var x := mem[p];
    FromIndirect(x) == d && x.dataLen > 0 && from < to ==> x.dataOff + x.dataLen <= from || to <= x.dataOff
  }

  /** p lies just where it is copied to. */
  ghost predicate InPlace(mem: Memory, p: Ptr, d: Ptr, to: nat)
    requires p in mem
  {
    FromIndirect(mem[p]) == d && mem[p].dataOff == to
  }

  /** No copy overlaps its own source, unless they are the same: what rte_memcpy asks for. */
  ghost predicate CopiesApart(mem: Memory, d: Ptr, at: nat, rest: seq<Ptr>, k: nat)
    requires AllIn(mem, rest) && k <= |rest|
  {
    forall i :: 0 <= i < k ==>
      var to := at + LenTo(mem, rest, i);
      InPlace(mem, rest[i], d, to) || Outside(mem, rest[i], d, to, to + mem[rest[i]].dataLen)
  }

  /** The bytes of p lie outside all places the first k copies move something to. */
  ghost predicate Untouched(mem: Memory, d: Ptr, at: nat, rest: seq<Ptr>, k: nat, p: Ptr)
    requires AllIn(mem, rest) && k <= |rest| && p in mem
  {
    forall j :: 0 <= j < k ==>
      var to := at + LenTo(mem, rest, j);
      InPlace(mem, rest[j], d, to) || Outside(mem, p, d, to, to + mem[rest[j]].dataLen)
  }

  /** No segment lies where one before it is moved to. */
  ghost predicate NotOverwritten(mem: Memory, d: Ptr, at: nat, rest: seq<Ptr>, k: nat)
    requires AllIn(mem, rest) && k <= |rest|
  {
    forall i :: 0 <= i < k ==> Untouched(mem, d, at, rest, i, rest[i])
  }

  /** The first k segments' bytes have arrived, one behind the other. */
  ghost predicate Arrived(mem: Memory, d: Ptr, at: nat, rest: seq<Ptr>, k: nat) {
    && k <= |rest| && AllData(mem, rest) && AllData(mem, rest[..k])
    && d in mem && at + SumLen(mem, rest) <= |mem[d].room|
    && CopiedRoom(mem, d, at, rest, k)[at..at + LenTo(mem, rest, k)] == Bytes(mem, rest[..k])
  }

  /** Copies leave everything before their own place as it was. */
  lemma {:induction false} CopiedBefore(mem: Memory, d: Ptr, at: nat, rest: seq<Ptr>, j: nat, k: nat)
    requires AllData(mem, rest) && d in mem && j <= k <= |rest| && at + SumLen(mem, rest) <= |mem[d].room|
    ensures var n := at + LenTo(mem, rest, j);
            CopiedRoom(mem, d, at, rest, k)[..n] == CopiedRoom(mem, d, at, rest, j)[..n]
  {
    if j < k {
      CopiedBefore(mem, d, at, rest, j, k - 1);
      LenToMono(mem, rest, j, k - 1);
      var room := CopiedRoom(mem, d, at, rest, k - 1);
      FilledElsewhere(room, at + LenTo(mem, rest, k - 1), Shown(mem, rest[k - 1], d, room), 0,
                      at + LenTo(mem, rest, j));
    }
  }

  lemma BytesStep(mem: Memory, rest: seq<Ptr>, k: nat)
    requires AllData(mem, rest) && k < |rest|
    ensures AllData(mem, rest[..k]) && AllData(mem, rest[..k + 1])
    ensures Bytes(mem, rest[..k + 1]) == Bytes(mem, rest[..k]) + Data(mem, rest[k])
    ensures |Bytes(mem, rest[..k])| == LenTo(mem, rest, k)
  {
    assert rest[..k + 1] == rest[..k] + [rest[k]];
    assert AllData(mem, [rest[k]])
        && Bytes(mem, [rest[k]]) == Data(mem, rest[k]) + Bytes(mem, [rest[k]][1..]);
    BytesConcat(mem, rest[..k], [rest[k]]);
  }

  /** Byte y is in no place that the first k copies move something to. */
  ghost predicate ByteSpared(mem: Memory, d: Ptr, at: nat, rest: seq<Ptr>, k: nat, y: nat)
    requires AllIn(mem, rest) && k <= |rest|
  {
    forall j :: 0 <= j < k ==>
      var to := at + LenTo(mem, rest, j);
      InPlace(mem, rest[j], d, to) || y < to || to + mem[rest[j]].dataLen <= y
  }

  lemma FilledAt(room: seq<Byte>, at: nat, bytes: seq<Byte>, y: nat)
    requires Fits(room, at, bytes) && y < |room|
    ensures Filled(room, at, bytes)[y] == if at <= y < at + |bytes| then bytes[y - at] else room[y]
  {
  }

  lemma {:induction false} ByteKept(mem: Memory, d: Ptr, at: nat, rest: seq<Ptr>, k: nat, y: nat)
    requires AllData(mem, rest) && d in mem && k <= |rest| && at + SumLen(mem, rest) <= |mem[d].room|
    requires y < |mem[d].room| && ByteSpared(mem, d, at, rest, k, y)
    ensures CopiedRoom(mem, d, at, rest, k)[y] == mem[d].room[y]
  {
    hide SumLen, Filled, LenTo;
    if k > 0 {
      ByteKept(mem, d, at, rest, k - 1, y);
      var room, p := CopiedRoom(mem, d, at, rest, k - 1), rest[k - 1];
      assert DataOk(mem, p);
      FilledAt(room, at + LenTo(mem, rest, k - 1), Shown(mem, p, d, room), y);
    }
  }

  /** A segment outside the places written to shows the bytes it had. */
  lemma UntouchedShown(mem: Memory, d: Ptr, at: nat, rest: seq<Ptr>, k: nat, p: Ptr)
    requires AllData(mem, rest) && d in mem && k <= |rest| && at + SumLen(mem, rest) <= |mem[d].room|
    requires DataOk(mem, p) && Untouched(mem, d, at, rest, k, p)
    ensures Shown(mem, p, d, CopiedRoom(mem, d, at, rest, k)) == Data(mem, p)
  {
    hide SumLen, CopiedRoom, LenTo;
    var room := CopiedRoom(mem, d, at, rest, k);
    if FromIndirect(mem[p]) == d {
      forall y | mem[p].dataOff <= y < mem[p].dataOff + mem[p].dataLen ensures room[y] == mem[d].room[y] {
        ByteKept(mem, d, at, rest, k, y);
      }
      SliceSame(room, mem[d].room, mem[p].dataOff, mem[p].dataOff + mem[p].dataLen);
    }
  }

  lemma SliceSame(a: seq<Byte>, b: seq<Byte>, lo: nat, hi: nat)
    requires lo <= hi <= |a| == |b| && forall y :: lo <= y < hi ==> a[y] == b[y]
    ensures a[lo..hi] == b[lo..hi]
  {
    forall i | 0 <= i < hi - lo ensures a[lo..hi][i] == b[lo..hi][i] {}
  }

  /** When no segment is overwritten before its turn, the buffer takes the bytes the segments had. */
  lemma {:induction false} CopiesFill(mem: Memory, d: Ptr, at: nat, rest: seq<Ptr>, k: nat)
    requires AllData(mem, rest) && d in mem && k <= |rest| && at + SumLen(mem, rest) <= |mem[d].room|
    requires NotOverwritten(mem, d, at, rest, k)
    ensures AllData(mem, rest[..k]) && Fits(mem[d].room, at, Bytes(mem, rest[..k]))
    ensures CopiedRoom(mem, d, at, rest, k) == Filled(mem[d].room, at, Bytes(mem, rest[..k]))
  {
    hide Bytes, Data, Shown, Filled, SumLen, Untouched;
    if k == 0 {
      assert rest[..0] == [];
      FilledNone(mem, d, at);
    } else {
      CopiesFill(mem, d, at, rest, k - 1);
      BytesStep(mem, rest, k - 1);
      LenToStep(mem, rest, k - 1);
      var p, bytes := rest[k - 1], Bytes(mem, rest[..k - 1]);
      assert DataOk(mem, p);
      UntouchedShown(mem, d, at, rest, k - 1, p);
      FilledStep(mem[d].room, at, bytes, Data(mem, p));
    }
  }

  lemma FilledNone(mem: Memory, d: Ptr, at: nat)
    requires d in mem && at <= |mem[d].room|
    ensures Bytes(mem, []) == [] && Filled(mem[d].room, at, []) == mem[d].room
  {
  }

  lemma CopiesArrive(mem: Memory, d: Ptr, at: nat, rest: seq<Ptr>, k: nat)
    requires AllData(mem, rest) && d in mem && k <= |rest| && at + SumLen(mem, rest) <= |mem[d].room|
    requires NotOverwritten(mem, d, at, rest, k)
    ensures Arrived(mem, d, at, rest, k)
  {
    hide Bytes, SumLen, NotOverwritten;
    CopiesFill(mem, d, at, rest, k);
    FilledThere(mem[d].room, at, Bytes(mem, rest[..k]));
  }

  lemma FilledThere(room: seq<Byte>, at: nat, bytes: seq<Byte>)
    requires Fits(room, at, bytes)
    ensures Filled(room, at, bytes)[at..at + |bytes|] == bytes
  {
  }

  // ---------- The converse: contents that do not arrive ----------

  /** The same headers and buffer sizes; what is in the buffers is free. */
  ghost predicate SameHeaders(mem: Memory, mem': Memory) {
    && mem'.Keys == mem.Keys
    && forall p :: p in mem ==> |mem'[p].room| == |mem[p].room| && mem'[p] == mem[p].(room := mem'[p].room)
  }

  /** Every buffer zero but for one byte of d. */
  ghost function Marked(mem: Memory, d: Ptr, x: nat): (mem': Memory)
    ensures SameHeaders(mem, mem')
  {
    map p | p in mem :: mem[p].(room := seq(|mem[p].room|, i => if p == d && i == x then 1 else 0))
  }

  lemma SameOwner(mem: Memory, mem': Memory, p: Ptr)
    requires SameHeaders(mem, mem') && p in mem
    ensures FromIndirect(mem'[p]) == FromIndirect(mem[p])
  {
  }

  lemma SameHeadersAgree(mem: Memory, mem': Memory, rest: seq<Ptr>, k: nat)
    requires SameHeaders(mem, mem') && AllData(mem, rest) && k <= |rest|
    ensures AllData(mem', rest) && SumLen(mem', rest) == SumLen(mem, rest)
    ensures LenTo(mem', rest, k) == LenTo(mem, rest, k)
    ensures forall i :: 0 <= i < |rest| ==> mem'[rest[i]] == mem[rest[i]].(room := mem'[rest[i]].room)
  {
    hide FromIndirect;
    forall i | 0 <= i < |rest| ensures DataOk(mem', rest[i]) && rest[i] in mem {
      assert DataOk(mem, rest[i]);
      SameOwner(mem, mem', rest[i]);
    }
    SumLenSame(mem, mem', rest);
    SumLenSame(mem, mem', rest[..k]);
  }

  lemma LenToNone(mem: Memory, rest: seq<Ptr>)
    requires AllIn(mem, rest)
    ensures LenTo(mem, rest, 0) == 0
  {
    assert rest[..0] == [];
  }

  /** A segment that is not copied onto itself does not bring the marked byte to its own place. */
  lemma MarkMissed(mem: Memory, p: Ptr, d: Ptr, x: nat, to: nat)
    requires DataOk(mem, p) && d in mem && to <= x < to + mem[p].dataLen
    requires DataOk(Marked(mem, d, x), p) && Outside(mem, p, d, to, to + mem[p].dataLen)
    ensures Data(Marked(mem, d, x), p)[x - to] == 0
  {
    var mem' := Marked(mem, d, x);
    SameOwner(mem, mem', p);
    assert Data(mem', p)[x - to] == mem'[FromIndirect(mem[p])].room[mem[p].dataOff + (x - to)];
  }

  lemma MarkThere(mem: Memory, p: Ptr, d: Ptr, x: nat)
    requires DataOk(mem, p) && FromIndirect(mem[p]) == d && mem[p].dataOff <= x < mem[p].dataOff + mem[p].dataLen
    requires DataOk(Marked(mem, d, x), p)
    ensures Data(Marked(mem, d, x), p)[x - mem[p].dataOff] == 1
  {
    SameOwner(mem, Marked(mem, d, x), p);
  }

  lemma {:induction false} BytesAt(mem: Memory, rest: seq<Ptr>, k: nat, j: nat, i: nat)
    requires AllData(mem, rest) && j < k <= |rest| && i < mem[rest[j]].dataLen
    ensures AllData(mem, rest[..k]) && DataOk(mem, rest[j]) && LenTo(mem, rest, j) + i < |Bytes(mem, rest[..k])|
    ensures Bytes(mem, rest[..k])[LenTo(mem, rest, j) + i] == Data(mem, rest[j])[i]
  {
    hide Bytes, SumLen, Data, LenTo;
    BytesStep(mem, rest, k - 1);
    assert DataOk(mem, rest[k - 1]);
    if j < k - 1 { BytesAt(mem, rest, k - 1, j, i); }
  }

  /** A byte of p that lies in [from, to) of the buffer of d. */
  lemma InsideAt(mem: Memory, p: Ptr, d: Ptr, from: nat, to: nat) returns (x: nat)
    requires p in mem && !Outside(mem, p, d, from, to)
    ensures FromIndirect(mem[p]) == d && mem[p].dataOff <= x < mem[p].dataOff + mem[p].dataLen && from <= x < to
  {
    x := if mem[p].dataOff < from then from else mem[p].dataOff;
  }

  /** A mark where copy j moves something to is gone once it is done. */
  lemma MarkGone(mem: Memory, d: Ptr, at: nat, rest: seq<Ptr>, k: nat, j: nat, x: nat)
    requires AllData(mem, rest) && d in mem && j < k <= |rest| && at + SumLen(mem, rest) <= |mem[d].room|
    requires CopiesApart(mem, d, at, rest, k) && NotOverwritten(mem, d, at, rest, k)
    requires var to := at + LenTo(mem, rest, j);
             !InPlace(mem, rest[j], d, to) && to <= x < to + mem[rest[j]].dataLen && x < |mem[d].room|
    ensures var mem' := Marked(mem, d, x);
            && AllData(mem', rest) && d in mem' && at + SumLen(mem', rest) <= |mem'[d].room| == |mem[d].room|
            && CopiedRoom(mem', d, at, rest, k)[x] == 0
  {
    hide SumLen, Bytes, Data, Outside, NotOverwritten, CopiedRoom, FromIndirect, LenTo, Marked, SameHeaders, InPlace;
    var mem', n := Marked(mem, d, x), LenTo(mem, rest, j);
    SameHeadersAgree(mem, mem', rest, j);
    SameHeadersAgree(mem, mem', rest, k);
    SameRooms(mem, mem', d);
    SameNotOverwritten(mem, mem', d, at, rest, k);
    CopiesArrive(mem', d, at, rest, k);
    assert DataOk(mem, rest[j]) && DataOk(mem', rest[j]);
    assert Outside(mem, rest[j], d, at + n, at + n + mem[rest[j]].dataLen);
    MarkMissed(mem, rest[j], d, x, at + n);
    BytesAt(mem', rest, k, j, x - at - n);
    var room := CopiedRoom(mem', d, at, rest, k);
    assert room[at..at + LenTo(mem', rest, k)][x - at] == room[x];
  }

  /** A byte of p, and the copy that moves something to its place. */
  lemma TouchedAt(mem: Memory, d: Ptr, at: nat, rest: seq<Ptr>, k: nat, p: Ptr) returns (j: nat, x: nat)
    requires AllIn(mem, rest) && k <= |rest| && p in mem && !Untouched(mem, d, at, rest, k, p)
    ensures j < k && !InPlace(mem, rest[j], d, at + LenTo(mem, rest, j))
    ensures FromIndirect(mem[p]) == d && mem[p].dataOff <= x < mem[p].dataOff + mem[p].dataLen
    ensures at + LenTo(mem, rest, j) <= x < at + LenTo(mem, rest, j) + mem[rest[j]].dataLen
  {
    hide Outside, InPlace, LenTo;
    j :| 0 <= j < k && !InPlace(mem, rest[j], d, at + LenTo(mem, rest, j))
         && !Outside(mem, p, d, at + LenTo(mem, rest, j), at + LenTo(mem, rest, j) + mem[rest[j]].dataLen);
    x := InsideAt(mem, p, d, at + LenTo(mem, rest, j), at + LenTo(mem, rest, j) + mem[rest[j]].dataLen);
  }

  lemma ApartBefore(mem: Memory, d: Ptr, at: nat, rest: seq<Ptr>, k: nat)
    requires AllIn(mem, rest) && 0 < k <= |rest| && CopiesApart(mem, d, at, rest, k)
    ensures CopiesApart(mem, d, at, rest, k - 1)
  {
  }

  /** If the last copy reads what an earlier one has moved, some contents do not arrive. */
  lemma LastOverwritten(mem: Memory, d: Ptr, at: nat, rest: seq<Ptr>, k: nat) returns (mem': Memory)
    requires AllData(mem, rest) && d in mem && 0 < k <= |rest| && at + SumLen(mem, rest) <= |mem[d].room|
    requires CopiesApart(mem, d, at, rest, k) && NotOverwritten(mem, d, at, rest, k - 1)
    requires !Untouched(mem, d, at, rest, k - 1, rest[k - 1])
    ensures SameHeaders(mem, mem') && !Arrived(mem', d, at, rest, k)
  {
    hide *;
    var p := rest[k - 1];
    ApartBefore(mem, d, at, rest, k);
    OneOk(mem, rest, k - 1);
    var j, x := TouchedAt(mem, d, at, rest, k - 1, p);
    mem' := Marked(mem, d, x);
    MarkGone(mem, d, at, rest, k - 1, j, x);
    OneOk(mem', rest, k - 1);
    MarkThere(mem, p, d, x);
    SameOwner(mem, mem', p);
    SameHeadersAgree(mem, mem', rest, k);
    StaleCopy(mem', d, at, rest, k, x);
  }

  lemma OneOk(mem: Memory, rest: seq<Ptr>, i: nat)
    requires AllData(mem, rest) && i < |rest|
    ensures AllIn(mem, rest) && DataOk(mem, rest[i]) && rest[i] in mem
  {
  }

  /** What the last copy reads at x is not what was there. */
  lemma StaleCopy(mem: Memory, d: Ptr, at: nat, rest: seq<Ptr>, k: nat, x: nat)
    requires AllData(mem, rest) && d in mem && 0 < k <= |rest| && at + SumLen(mem, rest) <= |mem[d].room|
    requires var p := rest[k - 1];
             && FromIndirect(mem[p]) == d && DataOk(mem, p)
             && mem[p].dataOff <= x < mem[p].dataOff + mem[p].dataLen
             && CopiedRoom(mem, d, at, rest, k - 1)[x] != Data(mem, p)[x - mem[p].dataOff]
    ensures !Arrived(mem, d, at, rest, k)
  {
    hide SumLen, Bytes, Data, FromIndirect, LenTo, Filled;
    var p, n := rest[k - 1], LenTo(mem, rest, k - 1);
    var j := x - mem[p].dataOff;
    var room, last := CopiedRoom(mem, d, at, rest, k - 1), CopiedRoom(mem, d, at, rest, k);
    LenToStep(mem, rest, k - 1);
    BytesStep(mem, rest, k - 1);
    assert Bytes(mem, rest[..k])[n + j] == Data(mem, p)[j];
    assert Shown(mem, p, d, room)[j] == room[x];
    FilledThere(room, at + n, Shown(mem, p, d, room));
    assert last[at + n..at + n + mem[p].dataLen][j] == last[at + n + j];
    assert last[at..at + LenTo(mem, rest, k)][n + j] == last[at + n + j];
  }

  lemma SameUntouched(mem: Memory, mem': Memory, d: Ptr, at: nat, rest: seq<Ptr>, k: nat, p: Ptr)
    requires SameHeaders(mem, mem') && AllData(mem, rest) && AllData(mem', rest) && k <= |rest| && p in mem && p in mem'
    ensures Untouched(mem, d, at, rest, k, p) <==> Untouched(mem', d, at, rest, k, p)
  {
    SameOwner(mem, mem', p);
    forall j | 0 <= j < k
      ensures LenTo(mem', rest, j) == LenTo(mem, rest, j) && mem'[rest[j]].dataLen == mem[rest[j]].dataLen
      ensures InPlace(mem', rest[j], d, at + LenTo(mem', rest, j))
         <==> InPlace(mem, rest[j], d, at + LenTo(mem, rest, j))
    {
      SameHeadersAgree(mem, mem', rest, j);
      SameOwner(mem, mem', rest[j]);
    }
  }

  lemma SameNotOverwritten(mem: Memory, mem': Memory, d: Ptr, at: nat, rest: seq<Ptr>, k: nat)
    requires SameHeaders(mem, mem') && AllData(mem, rest) && AllData(mem', rest) && k <= |rest|
    ensures NotOverwritten(mem, d, at, rest, k) <==> NotOverwritten(mem', d, at, rest, k)
  {
    hide Untouched;
    forall i | 0 <= i < k
      ensures Untouched(mem, d, at, rest, i, rest[i]) <==> Untouched(mem', d, at, rest, i, rest[i])
    {
      SameUntouched(mem, mem', d, at, rest, i, rest[i]);
    }
  }

  lemma {:induction false} SomeOverwritten(mem: Memory, d: Ptr, at: nat, rest: seq<Ptr>, k: nat) returns (mem': Memory)
    requires AllData(mem, rest) && d in mem && k <= |rest| && at + SumLen(mem, rest) <= |mem[d].room|
    requires CopiesApart(mem, d, at, rest, k) && !NotOverwritten(mem, d, at, rest, k)
    ensures SameHeaders(mem, mem') && !Arrived(mem', d, at, rest, k)
  {
    hide Arrived, SumLen, LenTo, SameHeaders, Untouched, AllData;
    if NotOverwritten(mem, d, at, rest, k - 1) {
      mem' := LastOverwritten(mem, d, at, rest, k);
    } else {
      mem' := SomeOverwritten(mem, d, at, rest, k - 1);
      SameHeadersAgree(mem, mem', rest, k);
      assert d in mem' && |mem'[d].room| == |mem[d].room| by { SameRooms(mem, mem', d); }
      if Arrived(mem', d, at, rest, k) {
        ArrivedBefore(mem', d, at, rest, k);
      }
    }
  }

  lemma SameRooms(mem: Memory, mem': Memory, d: Ptr)
    requires SameHeaders(mem, mem') && d in mem
    ensures d in mem' && |mem'[d].room| == |mem[d].room|
  {
  }

  lemma ArrivedBefore(mem: Memory, d: Ptr, at: nat, rest: seq<Ptr>, k: nat)
    requires AllData(mem, rest) && d in mem && 0 < k <= |rest| && at + SumLen(mem, rest) <= |mem[d].room|
    requires Arrived(mem, d, at, rest, k)
    ensures Arrived(mem, d, at, rest, k - 1)
  {
    hide SumLen, Bytes, Data, CopiedRoom, LenTo;
    BytesStep(mem, rest, k - 1);
    LenToStep(mem, rest, k - 1);
    CopiedBefore(mem, d, at, rest, k - 1, k);
    FrontOf(CopiedRoom(mem, d, at, rest, k - 1), CopiedRoom(mem, d, at, rest, k), at, at + LenTo(mem, rest, k - 1),
            at + LenTo(mem, rest, k), Bytes(mem, rest[..k - 1]), Data(mem, rest[k - 1]));
  }

  /** Buffers that agree before n, the second of which has x and then y from at on. */
  lemma FrontOf(a: seq<Byte>, b: seq<Byte>, at: nat, n: nat, end: nat, x: seq<Byte>, y: seq<Byte>)
    requires at <= n <= end <= |a| == |b| && |x| == n - at && a[..n] == b[..n] && b[at..end] == x + y
    ensures a[at..n] == x
  {
    assert a[at..n] == a[..n][at..] == b[..n][at..] == b[at..end][..n - at];
  }

  /** The copies bring every segment's bytes, whatever the buffers hold, if and only if no segment
      lies where one before it is moved to. */
  lemma AllArriveExactly(mem: Memory, d: Ptr, at: nat, rest: seq<Ptr>)
    requires AllData(mem, rest) && d in mem && at + SumLen(mem, rest) <= |mem[d].room|
    requires CopiesApart(mem, d, at, rest, |rest|)
    ensures NotOverwritten(mem, d, at, rest, |rest|)
       <==> forall mem': Memory :: SameHeaders(mem, mem') ==> Arrived(mem', d, at, rest, |rest|)
  {
    hide NotOverwritten, CopiesApart, Arrived, SameHeaders, SumLen, AllData, CopiedRoom;
    if NotOverwritten(mem, d, at, rest, |rest|) {
      forall mem': Memory | SameHeaders(mem, mem') ensures Arrived(mem', d, at, rest, |rest|) {
        SameHeadersAgree(mem, mem', rest, |rest|);
        SameNotOverwritten(mem, mem', d, at, rest, |rest|);
        SameRooms(mem, mem', d);
        CopiesArrive(mem', d, at, rest, |rest|);
      }
    } else {
      var mem' := SomeOverwritten(mem, d, at, rest, |rest|);
    }
  }

  // ---------- What else uses the buffer ----------

  /** p, which is not copied, shows the bytes it had once all copies are done. */
  ghost predicate StillShown(mem: Memory, d: Ptr, at: nat, rest: seq<Ptr>, p: Ptr) {
    && AllData(mem, rest) && d in mem && at + SumLen(mem, rest) <= |mem[d].room| && DataOk(mem, p)
    && Shown(mem, p, d, CopiedRoom(mem, d, at, rest, |rest|)) == Data(mem, p)
  }

  /** When all bytes arrive, an mbuf that is not copied keeps what it shows, whatever that is, if and
      only if it lies outside the places something is moved to. */
  lemma StillShownExactly(mem: Memory, d: Ptr, at: nat, rest: seq<Ptr>, p: Ptr)
    requires AllData(mem, rest) && d in mem && at + SumLen(mem, rest) <= |mem[d].room| && DataOk(mem, p)
    requires CopiesApart(mem, d, at, rest, |rest|) && NotOverwritten(mem, d, at, rest, |rest|)
    ensures Untouched(mem, d, at, rest, |rest|, p)
       <==> forall mem': Memory :: SameHeaders(mem, mem') ==> StillShown(mem', d, at, rest, p)
  {
    hide SumLen, CopiedRoom, Shown, Data, LenTo, InPlace, Untouched, NotOverwritten, FromIndirect, Marked;
    if Untouched(mem, d, at, rest, |rest|, p) {
      forall mem': Memory | SameHeaders(mem, mem') ensures StillShown(mem', d, at, rest, p) {
        SameHeadersAgree(mem, mem', rest, |rest|);
        SameRooms(mem, mem', d);
        SameOwner(mem, mem', p);
        SameUntouched(mem, mem', d, at, rest, |rest|, p);
        UntouchedShown(mem', d, at, rest, |rest|, p);
      }
    } else {
      var j, x := TouchedAt(mem, d, at, rest, |rest|, p);
      var mem' := Marked(mem, d, x);
      MarkGone(mem, d, at, rest, |rest|, j, x);
      MarkedShown(mem, d, p, x, CopiedRoom(mem', d, at, rest, |rest|));
      assert !StillShown(mem', d, at, rest, p);
    }
  }

  lemma MarkedShown(mem: Memory, d: Ptr, p: Ptr, x: nat, room: seq<Byte>)
    requires DataOk(mem, p) && d in mem && FromIndirect(mem[p]) == d && |room| == |mem[d].room|
    requires mem[p].dataOff <= x < mem[p].dataOff + mem[p].dataLen && room[x] == 0
    ensures var mem' := Marked(mem, d, x);
            DataOk(mem', p) && |mem'[d].room| == |room| && Shown(mem', p, d, room) != Data(mem', p)
  {
    var mem' := Marked(mem, d, x);
    SameOwner(mem, mem', p);
    MarkThere(mem, p, d, x);
    assert Shown(mem', p, d, room)[x - mem[p].dataOff] == room[x];
  }
}
