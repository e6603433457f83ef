/** The Internet checksum (src/dpdk/packets.cr), against sections 1 and 2 of RFC 1071. */
module Checksum {
  import opened Bits

  const U64 := 0x1_0000_0000_0000_0000

  // ---------- The reference ----------

  /** The one's complement sum of two 16-bit integers: the carry comes round to the low end. */
  function AddAround(a: nat, b: nat): nat {
    if a + b >= U16 then a + b - U16 + 1 else a + b
  }

  /** The 16-bit one's complement sum of adjacent octets, paired with the first as the high one
      and an odd last octet padded with zero. */
  function OnesSum(b: seq<Byte>): (s: nat)
    ensures s < 0x1_0000
  {
    if b == [] then 0
    else if |b| == 1 then 256 * (b[0] as nat)
    else AddAround(256 * (b[0] as nat) + b[1] as nat, OnesSum(b[2..]))
  }

  // ---------- Sums that are the same to the checksum ----------

  /** Equal modulo 2^16 - 1, and zero together. */
  predicate Same(a: nat, b: nat) {
    (a - b) % 65535 == 0 && (a == 0 <==> b == 0)
  }

  lemma SameAdd(a: nat, b: nat, c: nat, d: nat)
    requires Same(a, b) && Same(c, d)
    ensures Same(a + c, b + d)
  {
  }

  lemma SameChain(a: nat, b: nat, c: nat)
    requires Same(a, b) && Same(b, c)
    ensures Same(a, c)
  {
  }

  /** 16-bit sums that are the same are equal. */
  lemma SameIsEqual(a: nat, b: nat)
    requires Same(a, b) && a < 0x1_0000 && b < 0x1_0000
    ensures a == b
  {
  }

  /** The value of bytes in memory, the first one the lowest. */
  function Little(b: seq<Byte>): nat {
    if b == [] then 0 else b[0] as nat + 256 * Little(b[1..])
  }

  lemma {:induction false} LittleBound(b: seq<Byte>)
    ensures Little(b) < Power256(|b|)
  {
    if b != [] { LittleBound(b[1..]); }
  }

  function Power256(k: nat): nat {
    if k == 0 then 1 else 256 * Power256(k - 1)
  }

  /** The plain sum of the 16-bit integers as the processor reads them, low octet first. */
  function WordSum(b: seq<Byte>): nat {
    if b == [] then 0
    else if |b| == 1 then b[0] as nat
    else b[0] as nat + 256 * (b[1] as nat) + WordSum(b[2..])
  }

  lemma {:induction false} WordSumSplit(a: seq<Byte>, b: seq<Byte>)
    requires |a| % 2 == 0
    ensures WordSum(a + b) == WordSum(a) + WordSum(b)
  {
    if a == [] {
      assert a + b == b;
    } else {
      WordSumSplit(a[2..], b);
      assert (a + b)[2..] == a[2..] + b;
    }
  }

  /** A wide load counts for the words inside it. */
  lemma {:induction false} LittleIsWords(b: seq<Byte>)
    ensures Same(Little(b), WordSum(b))
  {
    if |b| >= 2 {
      LittleIsWords(b[2..]);
      assert b[1..][1..] == b[2..];
      assert Little(b) == b[0] as nat + 256 * (b[1] as nat) + 65536 * Little(b[2..]);
      FoldSame(Little(b[2..]), 0, 65536);
      SameChain(65536 * Little(b[2..]), Little(b[2..]), WordSum(b[2..]));
    }
  }

  /** Halves of a number count as their sum. */
  lemma FoldSame(hi: nat, lo: nat, m: nat)
    requires m == U16 || m == U32 || m == U64
    ensures Same(m * hi + lo, hi + lo)
  {
    var q := if m == U16 then 1 else if m == U32 then 0x1_0001 else 0x1_0001_0001_0001;
    assert m == 65535 * q + 1;
    assert m * hi + lo - (hi + lo) == 65535 * (q * hi) + 0;
    ModOf(65535, q * hi, 0);
  }

  /** Unsigned addition modulo m with the carry added back, as the code detects it. */
  function AddBack(sum: nat, s: nat, m: nat): nat
    requires m > 0
  {
    var t := (sum + s) % m;
    if t < s then (t + 1) % m else t
  }

  lemma AddBackSame(sum: nat, s: nat, m: nat)
    requires m == U16 || m == U32 || m == U64
    requires sum < m && s < m
    ensures AddBack(sum, s, m) < m && Same(AddBack(sum, s, m), sum + s)
  {
    var t := sum + s;
    if t >= m {
      ModOf(m, 1, t - m);
      assert AddBack(sum, s, m) == t - m + 1 by {
        assert t % m == t - m < s;
        ModOf(m, 0, t - m + 1);
      }
      FoldSame(1, t - m, m);
      hide AddBack;
      SameBack(m * 1 + (t - m), 1 + (t - m));
    } else {
      ModOf(m, 0, t);
    }
  }

  /** Adding the value loaded from the next bytes. */
  lemma LoadAdded(sum: nat, done: seq<Byte>, next: seq<Byte>)
    requires sum < U64 && Same(sum, WordSum(done)) && |done| % 2 == 0 && |next| <= 8
    ensures Little(next) < U64
    ensures AddBack(sum, Little(next), U64) < U64
    ensures Same(AddBack(sum, Little(next), U64), WordSum(done + next))
  {
    hide Same, WordSum, Little, AddBack;
    var s := Little(next);
    LoadBound(next);
    LittleIsWords(next);
    WordSumSplit(done, next);
    AddBackSame(sum, s, U64);
    SameAdd(sum, WordSum(done), s, WordSum(next));
    SameChain(AddBack(sum, s, U64), sum + s, WordSum(done + next));
  }

  lemma LoadBound(next: seq<Byte>)
    requires |next| <= 8
    ensures Little(next) < U64
  {
    LittleBound(next);
    PowerGrows(|next|, 8);
    assert Power256(4) == 0x1_0000_0000;
    assert Power256(8) == U64;
  }

  lemma {:induction false} PowerGrows(a: nat, b: nat)
    requires a <= b
    ensures Power256(a) <= Power256(b)
    decreases b
  {
    if a < b { PowerGrows(a, b - 1); }
  }

  /** The two folds at the end. */
  function Folded(sum: nat): nat {
    var t := AddBack(sum % U32, sum / U32, U32);
    AddBack(t % U16, t / U16, U16)
  }

  lemma FoldedSame(sum: nat)
    requires sum < U64
    ensures Folded(sum) < U16 && Same(Folded(sum), sum)
  {
    var t := AddBack(sum % U32, sum / U32, U32);
    HalvesAdded(sum % U32, sum / U32, U32);
    HalvesAdded(t % U16, t / U16, U16);
    assert sum == U32 * (sum / U32) + sum % U32 && t == U16 * (t / U16) + t % U16;
    hide Same, AddBack;
    SameChain(Folded(sum), t, sum);
  }

  /** One fold. */
  lemma HalvesAdded(lo: nat, hi: nat, m: nat)
    requires (m == U16 || m == U32) && lo < m && hi < m
    ensures AddBack(lo, hi, m) < m && Same(AddBack(lo, hi, m), m * hi + lo)
  {
    AddBackSame(lo, hi, m);
    FoldSame(hi, lo, m);
    hide Same, AddBack;
    SameBack(m * hi + lo, hi + lo);
    SameChain(AddBack(lo, hi, m), lo + hi, m * hi + lo);
  }

  // ---------- Byte order ----------

  /** The other byte order of a 16-bit integer. */
  function Swapped(x: nat): (r: nat)
    requires x < 0x1_0000
    ensures r < 0x1_0000
  {
    256 * (x % 256) + x / 256
  }

  lemma {:induction false} OnesSumSame(b: seq<Byte>)
    ensures Same(OnesSum(b), 256 * WordSum(b))
  {
    if |b| >= 2 {
      OnesSumSame(b[2..]);
      AroundSame(b[0] as nat, b[1] as nat, OnesSum(b[2..]), WordSum(b[2..]));
    }
  }

  /** One pair of octets, in either order. */
  lemma AroundSame(first: nat, second: nat, rest: nat, words: nat)
    requires first < 256 && second < 256 && rest < U16 && Same(rest, 256 * words)
    ensures Same(AddAround(256 * first + second, rest), 256 * (first + 256 * second + words))
  {
    var w := 256 * first + second;
    AddAroundSame(w, rest);
    FoldSame(second, 256 * first, U16);
    assert U16 * second + 256 * first == 256 * (first + 256 * second);
    hide Same, AddAround;
    SameBack(256 * (first + 256 * second), w);
    SameAdd(w, 256 * (first + 256 * second), rest, 256 * words);
    SameChain(AddAround(w, rest), w + rest, 256 * (first + 256 * second + words));
  }

  lemma SameBack(a: nat, b: nat)
    requires Same(a, b)
    ensures Same(b, a)
  {
  }

  lemma AddAroundSame(a: nat, b: nat)
    requires a < U16 && b < U16
    ensures Same(AddAround(a, b), a + b)
  {
    if a + b >= U16 {
      FoldSame(1, a + b - U16, U16);
    }
  }

  lemma SwappedSame(x: nat)
    requires x < 0x1_0000
    ensures Same(Swapped(x), 256 * x)
  {
    FoldSame(x / 256, 256 * (x % 256), U16);
  }

  /** A 16-bit sum that is the same as the words in memory order is, in the other byte order, the
      RFC's sum: section 2 (B). */
  lemma ByteOrder(t: nat, b: seq<Byte>)
    requires t < 0x1_0000 && Same(t, WordSum(b))
    ensures Swapped(t) == OnesSum(b)
  {
    hide *;
    SwappedSame(t);
    OnesSumSame(b);
    SameBack(OnesSum(b), 256 * WordSum(b));
    Times256(t, WordSum(b));
    SameChain(Swapped(t), 256 * t, 256 * WordSum(b));
    SameChain(Swapped(t), 256 * WordSum(b), OnesSum(b));
    SameIsEqual(Swapped(t), OnesSum(b));
  }

  lemma Times256(a: nat, b: nat)
    requires Same(a, b)
    ensures Same(256 * a, 256 * b)
  {
    var k := (a - b) / 65535;
    assert a - b == 65535 * k;
    ModOf(65535, 256 * k, 0);
    assert 256 * a - 256 * b == 65535 * (256 * k) + 0;
  }

  // ---------- The code ----------

  /** sum stands for the bytes from at up to b. */
  ghost predicate Summed(sum: nat, m: seq<Byte>, at: nat, b: nat) {
    at <= b <= |m| && sum < U64 && Same(sum, WordSum(m[at..b]))
  }

  /** The w bytes at an address loaded as an integer and added to a 64-bit sum. */
  function Plus(sum: nat, m: seq<Byte>, b: nat, w: nat): nat
    requires b + w <= |m|
  {
    AddBack(sum, Little(m[b..b + w]), U64)
  }

  lemma SummedNone(m: seq<Byte>, at: nat)
    requires at <= |m|
    ensures Summed(0, m, at, at) && Even(at, at)
  {
    assert m[at..at] == [];
  }

  predicate Even(at: nat, b: nat) { (b - at) % 2 == 0 }

  /** One load of w bytes after a whole number of words, as the code adds it. */
  lemma LoadSummed(sum: nat, m: seq<Byte>, at: nat, b: nat, w: nat)
    requires b + w <= |m| && w <= 8 && Summed(sum, m, at, b) && Even(at, b)
    ensures Summed(Plus(sum, m, b, w), m, at, b + w) && (w % 2 == 0 ==> Even(at, b + w))
  {
    LoadAdded(sum, m[at..b], m[b..b + w]);
    assert m[at..b] + m[b..b + w] == m[at..b + w];
  }

  /** checksum: for every length, odd ones included, the 16-bit integer that as it is stored in
      memory reads as the complement of the RFC's sum. */
  method Compute(m: seq<Byte>, at: nat, size: nat) returns (r: nat)
    requires at + size <= |m|
    ensures r < 0x1_0000 && Swapped(r) == 0xFFFF - OnesSum(m[at..at + size])
  {
    hide *;
    SummedNone(m, at);
    var b: nat, left: nat, sum: nat := at, size, 0;
    while left >= 8
      invariant b + left == at + size && Summed(sum, m, at, b) && Even(at, b)
    {
      LoadSummed(sum, m, at, b, 8);
      sum := Plus(sum, m, b, 8);
      b, left := b + 8, left - 8;
    }
    LowBits(left);
    if And(left, 4) != 0 {
      LoadSummed(sum, m, at, b, 4);
      sum := Plus(sum, m, b, 4);
      b := b + 4;
    }
    if And(left, 2) != 0 {
      LoadSummed(sum, m, at, b, 2);
      sum := Plus(sum, m, b, 2);
      b := b + 2;
    }
    if And(left, 1) != 0 {
      LoadSummed(sum, m, at, b, 1);
      sum := Plus(sum, m, b, 1);
      b := b + 1;
    }
    SumFolded(sum, m, at, at + size);
    r := 0xFFFF - Folded(sum);
  }

  /** The three low bits of what is left after the loop. */
  lemma LowBits(left: nat)
    requires left < 8
    ensures And(left, 4) == 0 || And(left, 4) == 4
    ensures And(left, 2) == 0 || And(left, 2) == 2
    ensures And(left, 1) == 0 || And(left, 1) == 1
    ensures left == And(left, 4) + And(left, 2) + And(left, 1)
  {
    assert And(left, 1) == left % 2;
    assert And(left, 2) == 2 * And(left / 2, 1) == 2 * (left / 2 % 2);
    assert And(left, 4) == 2 * And(left / 2, 2) && And(left / 2, 2) == 2 * And(left / 4, 1);
  }

  lemma SumFolded(sum: nat, m: seq<Byte>, at: nat, end: nat)
    requires Summed(sum, m, at, end)
    ensures at <= end <= |m| && Folded(sum) < 0x1_0000
    ensures Swapped(0xFFFF - Folded(sum)) == 0xFFFF - OnesSum(m[at..end])
  {
    var b := m[at..end];
    FoldedSame(sum);
    hide Same, WordSum, OnesSum, Folded, Swapped;
    SameChain(Folded(sum), sum, WordSum(b));
    ByteOrder(Folded(sum), b);
    SwapOfComplement(Folded(sum));
  }

  lemma SwapOfComplement(t: nat)
    requires t < U16
    ensures Swapped(0xFFFF - t) == 0xFFFF - Swapped(t)
  {
    var hi, lo := t / 256, t % 256;
    assert 0xFFFF - t == 256 * (255 - hi) + (255 - lo);
    ModOf(256, 255 - hi, 255 - lo);
  }

  /** The headers whose checksum is set, and the packet offset each starts at. */
  datatype Header = Ip | IpOpt | GtpIp | GreIp

  function Start(h: Header): nat {
    match h
    case Ip | IpOpt => 14
    case GtpIp => 50
    case GreIp => 38
  }

  function Size(h: Header): nat {
    if h.IpOpt? then 32 else 20
  }

  /** ip_checksum, ip_opt_checksum, gtp_ip_checksum, gre_ip_checksum: the header then sums to
      0xFFFF, as section 3.1 of RFC 791 requires, and only its checksum field has changed. */
  method SetChecksum(mem: array<Byte>, pkt: nat, h: Header)
    requires pkt + Start(h) + Size(h) <= mem.Length
    modifies mem
    ensures h.Ip? ==> OnesSum(mem[pkt + 14..pkt + 34]) == 0xFFFF
    ensures h.IpOpt? ==> OnesSum(mem[pkt + 14..pkt + 46]) == 0xFFFF
    ensures h.GtpIp? ==> OnesSum(mem[pkt + 50..pkt + 70]) == 0xFFFF
    ensures h.GreIp? ==> OnesSum(mem[pkt + 38..pkt + 58]) == 0xFFFF
    ensures forall i :: 0 <= i < mem.Length && mem[i] != old(mem[i]) ==>
              && (h.Ip? || h.IpOpt? ==> i == pkt + 24 || i == pkt + 25)
              && (h.GtpIp? ==> i == pkt + 60 || i == pkt + 61)
              && (h.GreIp? ==> i == pkt + 48 || i == pkt + 49)
  {
    hide OnesSum, Swapped;
    var field := match h case Ip | IpOpt => pkt + 0x18 case GtpIp => pkt + 0x3c case GreIp => pkt + 0x30;
    mem[field], mem[field + 1] := 0, 0;
    ghost var zeroed := mem[pkt + Start(h)..pkt + Start(h) + Size(h)];
    assert zeroed == mem[..][pkt + Start(h)..pkt + Start(h) + Size(h)];
    var r := Compute(mem[..], pkt + Start(h), Size(h));
    mem[field], mem[field + 1] := (r % 256) as Byte, (r / 256) as Byte;
    ghost var filled := mem[pkt + Start(h)..pkt + Start(h) + Size(h)];
    assert filled == zeroed[10 := (r % 256) as Byte][11 := (r / 256) as Byte];
    HeaderSums(zeroed, r);
  }

  /** Putting the checksum in its field makes the sum all ones. */
  lemma HeaderSums(zeroed: seq<Byte>, r: nat)
    requires |zeroed| >= 12 && zeroed[10] == zeroed[11] == 0
    requires r < U16 && Swapped(r) == 0xFFFF - OnesSum(zeroed)
    ensures OnesSum(zeroed[10 := (r % 256) as Byte][11 := (r / 256) as Byte]) == 0xFFFF
  {
    var t := 0xFFFF - r;
    var filled := zeroed[10 := (r % 256) as Byte][11 := (r / 256) as Byte];
    assert Same(t, WordSum(zeroed)) by { SumOfComplement(zeroed, r); }
    WordSumField(zeroed, r);
    assert Same(r, r);
    SameAdd(t, WordSum(zeroed), r, r);
    ByteOrder(0xFFFF, filled);
  }

  lemma SumOfComplement(b: seq<Byte>, r: nat)
    requires r < U16 && Swapped(r) == 0xFFFF - OnesSum(b)
    ensures Same(0xFFFF - r, WordSum(b))
  {
    var t := 0xFFFF - r;
    SwapOfComplement(r);
    OnesSumSame(b);
    hide OnesSum, WordSum, Same;
    assert OnesSum(b) == Swapped(t);
    SwappedSame(t);
    SameBack(Swapped(t), 256 * t);
    SameChain(256 * t, Swapped(t), 256 * WordSum(b));
    SameHalves(t, WordSum(b));
  }

  lemma SameHalves(a: nat, b: nat)
    requires Same(256 * a, 256 * b)
    ensures Same(a, b)
  {
    Times256(256 * a, 256 * b);
    FoldSame(a, 0, U16);
    FoldSame(b, 0, U16);
    hide Same;
    SameBack(U16 * a, a);
    SameChain(a, U16 * a, U16 * b);
    SameChain(a, U16 * b, b);
  }

  lemma WordSumField(zeroed: seq<Byte>, r: nat)
    requires |zeroed| >= 12 && zeroed[10] == zeroed[11] == 0 && r < U16
    ensures WordSum(zeroed[10 := (r % 256) as Byte][11 := (r / 256) as Byte]) == WordSum(zeroed) + r
  {
    var filled := zeroed[10 := (r % 256) as Byte][11 := (r / 256) as Byte];
    assert zeroed == zeroed[..10] + zeroed[10..];
    assert filled == zeroed[..10] + filled[10..];
    WordSumSplit(zeroed[..10], zeroed[10..]);
    WordSumSplit(zeroed[..10], filled[10..]);
    assert filled[10..][2..] == zeroed[10..][2..];
  }
}
