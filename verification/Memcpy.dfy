/** rte_memcpy (src/ext/rte_memcpy.c), in its three forms.

    Memory is one array of bytes whose indices are the addresses, so that the alignment of a
    pointer is its remainder.  A register load reads all its bytes before any store. */
module Memcpy {
  import opened Bits

  /** The instruction set the code is compiled for; each has its own rte_memcpy_generic. */
  datatype Cpu = Sse | Avx2 | Avx512

  /** The widest register, which is also ALIGNMENT_MASK + 1. */
  function Width(cpu: Cpu): nat {
    match cpu
    case Sse => 16
    case Avx2 => 32
    case Avx512 => 64
  }

  /** Memory after bytes are written at an address. */
  function Put(m: seq<Byte>, at: nat, bytes: seq<Byte>): (r: seq<Byte>)
    requires at + |bytes| <= |m|
    ensures |r| == |m|
  {
    m[..at] + bytes + m[at + |bytes|..]
  }

  /** What a copy of n bytes must leave: the source bytes at dst, all else as before. */
  function Copied(m: seq<Byte>, dst: nat, src: nat, n: nat): (r: seq<Byte>)
    requires dst + n <= |m| && src + n <= |m|
    ensures |r| == |m|
  {
    Put(m, dst, m[src..src + n])
  }

  lemma CopiedSame(m: seq<Byte>, at: nat, n: nat)
    requires at + n <= |m|
    ensures Copied(m, at, at, n) == m
  {
  }

  /** A copy to be made: memory before it, and two regions of size bytes that do not overlap, or
      are the same. */
  datatype Job = Job(m: seq<Byte>, dst: nat, src: nat, size: nat)

  predicate ApartOrSame(dst: nat, src: nat, n: nat) { dst + n <= src || src + n <= dst || dst == src }

  predicate JobOk(j: Job) {
    && j.dst + j.size <= |j.m| && j.src + j.size <= |j.m| && ApartOrSame(j.dst, j.src, j.size)
  }

  /** The first k bytes are copied; a byte after them may be copied already; nothing else has
      changed. */
  predicate Upto(m: seq<Byte>, j: Job, k: nat)
    requires JobOk(j)
  {
    && k <= j.size && |m| == |j.m|
    && (forall i {:trigger m[i]} :: 0 <= i < |m| ==> (j.dst <= i < j.dst + j.size) || m[i] == j.m[i])
    && (forall i {:trigger m[i]} :: j.dst <= i < j.dst + j.size ==>
          m[i] == j.m[j.src + (i - j.dst)] || (j.dst + k <= i && m[i] == j.m[i]))
  }

  lemma StartUpto(j: Job)
    requires JobOk(j)
    ensures Upto(j.m, j, 0)
  {
  }

  lemma UptoBounds(m: seq<Byte>, j: Job, k: nat)
    requires JobOk(j) && Upto(m, j, k)
    ensures k <= j.size && |m| == |j.m|
  {
  }

  lemma UptoAll(m: seq<Byte>, j: Job)
    requires JobOk(j) && Upto(m, j, j.size)
    ensures m == Copied(j.m, j.dst, j.src, j.size)
  {
  }

  /** The source region keeps its bytes throughout. */
  lemma SourceKept(m: seq<Byte>, j: Job, k: nat, o: nat, w: nat)
    requires JobOk(j) && Upto(m, j, k) && o + w <= j.size
    ensures m[j.src + o..j.src + o + w] == j.m[j.src + o..j.src + o + w]
  {
  }

  /** Writing the right bytes anywhere from the copied part on: a back-copy only rewrites bytes
      that are already right. */
  lemma PutUpto(m: seq<Byte>, j: Job, k: nat, o: nat, bytes: seq<Byte>)
    requires JobOk(j) && Upto(m, j, k) && o <= k && o + |bytes| <= j.size
    requires bytes == j.m[j.src + o..j.src + o + |bytes|]
    ensures Upto(Put(m, j.dst + o, bytes), j, if k < o + |bytes| then o + |bytes| else k)
  {
    PutAt(m, j.dst + o, bytes);
    hide Put;
    var r := Put(m, j.dst + o, bytes);
    forall i | j.dst + o <= i < j.dst + o + |bytes| ensures r[i] == j.m[j.src + (i - j.dst)] {
      assert bytes[i - j.dst - o] == j.m[j.src + (i - j.dst)];
    }
  }

  lemma PutAt(m: seq<Byte>, at: nat, bytes: seq<Byte>)
    requires at + |bytes| <= |m|
    ensures forall i {:trigger Put(m, at, bytes)[i]} :: 0 <= i < |m| ==>
              Put(m, at, bytes)[i] == if at <= i < at + |bytes| then bytes[i - at] else m[i]
  {
  }

  /** A store of one register. */
  method Store(mem: array<Byte>, at: nat, reg: seq<Byte>)
    requires at + |reg| <= mem.Length
    modifies mem
    ensures mem[..] == Put(old(mem[..]), at, reg)
  {
    for i := 0 to |reg|
      invariant forall a :: 0 <= a < mem.Length ==> mem[a] == if at <= a < at + i then reg[a - at] else old(mem[a])
    {
      mem[at + i] := reg[i];
    }
  }

  /** A load of w bytes, at most one register, and their store. */
  method MovReg(mem: array<Byte>, dst: nat, src: nat, w: nat, ghost j: Job, ghost k: nat)
    requires JobOk(j) && Upto(mem[..], j, k) && j.dst <= dst <= j.dst + k && dst + w <= j.dst + j.size
    requires src == j.src + (dst - j.dst)
    modifies mem
    ensures Upto(mem[..], j, Max(k, dst + w - j.dst))
  {
    hide Upto, Put;
    UptoBounds(mem[..], j, k);
    var reg := mem[src..src + w];
    ghost var m := mem[..];
    SourceKept(m, j, k, dst - j.dst, w);
    assert reg == m[src..src + w];
    PutUpto(m, j, k, dst - j.dst, reg);
    Store(mem, dst, reg);
  }

  function Max(a: nat, b: nat): nat { if a < b then b else a }

  /** rte_mov16 to rte_mov256: n bytes in registers no wider than n, from the first to the last. */
  method Mov(cpu: Cpu, mem: array<Byte>, dst: nat, src: nat, n: nat, ghost j: Job, ghost k: nat)
    requires JobOk(j) && Upto(mem[..], j, k) && j.dst <= dst <= j.dst + k && dst + n <= j.dst + j.size
    requires src == j.src + (dst - j.dst)
    requires n == 16 || n == 32 || n == 64 || n == 128 || n == 256
    modifies mem
    ensures Upto(mem[..], j, Max(k, dst + n - j.dst))
  {
    hide Upto;
    var w := if n < Width(cpu) then n else Width(cpu);
    var i := 0;
    while i < n
      invariant i <= n && i % 16 == 0 && (w >= 32 ==> i % 32 == 0) && (w == 64 ==> i % 64 == 0)
      invariant Upto(mem[..], j, Max(k, dst + i - j.dst))
    {
      MovReg(mem, dst + i, src + i, w, j, Max(k, dst + i - j.dst));
      i := i + w;
    }
  }

  /** The copy of fewer than 16 bytes, by the bits of n. */
  method MovSmall(mem: array<Byte>, dst: nat, src: nat, n: nat, ghost j: Job)
    requires JobOk(j) && Upto(mem[..], j, 0) && dst == j.dst && src == j.src && n == j.size < 16
    modifies mem
    ensures Upto(mem[..], j, n)
  {
    hide Upto;
    var d, s := dst, src;
    if n % 2 == 1 {
      MovReg(mem, d, s, 1, j, d - dst);
      s, d := s + 1, d + 1;
    }
    if (n / 2) % 2 == 1 {
      MovReg(mem, d, s, 2, j, d - dst);
      s, d := s + 2, d + 2;
    }
    if (n / 4) % 2 == 1 {
      MovReg(mem, d, s, 4, j, d - dst);
      s, d := s + 4, d + 4;
    }
    if n / 8 == 1 {
      MovReg(mem, d, s, 8, j, d - dst);
    }
  }

  // ---------- The tails that several paths jump into ----------

  /** COPY_BLOCK_64_BACK15. */
  method Tail64Back15(mem: array<Byte>, dst: nat, src: nat, n: nat, ghost j: Job)
    requires JobOk(j) && j.dst <= dst && Upto(mem[..], j, dst - j.dst) && src == j.src + (dst - j.dst)
    requires dst + n == j.dst + j.size && n <= 64 && 16 <= j.size
    modifies mem
    ensures Upto(mem[..], j, j.size)
  {
    hide Upto;
    var d, s, r := dst, src, n;
    if r >= 32 {
      r := r - 32;
      Mov(Sse, mem, d, s, 32, j, d - j.dst);
      s, d := s + 32, d + 32;
    }
    if r > 16 {
      Mov(Sse, mem, d, s, 16, j, d - j.dst);
      Mov(Sse, mem, d + r - 16, s + r - 16, 16, j, d + 16 - j.dst);
      return;
    }
    if r > 0 {
      Mov(Sse, mem, d + r - 16, s + r - 16, 16, j, d - j.dst);
    }
  }

  /** COPY_BLOCK_128_BACK15. */
  method Tail128Back15(mem: array<Byte>, dst: nat, src: nat, n: nat, ghost j: Job)
    requires JobOk(j) && j.dst <= dst && Upto(mem[..], j, dst - j.dst) && src == j.src + (dst - j.dst)
    requires dst + n == j.dst + j.size && n <= 128 && 16 <= j.size
    modifies mem
    ensures Upto(mem[..], j, j.size)
  {
    hide Upto;
    var d, s, r := dst, src, n;
    if r >= 64 {
      r := r - 64;
      Mov(Sse, mem, d, s, 64, j, d - j.dst);
      s, d := s + 64, d + 64;
    }
    Tail64Back15(mem, d, s, r, j);
  }

  /** COPY_BLOCK_255_BACK15. */
  method Tail255Back15(mem: array<Byte>, dst: nat, src: nat, n: nat, ghost j: Job)
    requires JobOk(j) && j.dst <= dst && Upto(mem[..], j, dst - j.dst) && src == j.src + (dst - j.dst)
    requires dst + n == j.dst + j.size && n <= 256 && 16 <= j.size
    modifies mem
    ensures Upto(mem[..], j, j.size)
  {
    hide Upto;
    var d, s, r := dst, src, n;
    if r >= 128 {
      r := r - 128;
      Mov(Sse, mem, d, s, 128, j, d - j.dst);
      s, d := s + 128, d + 128;
    }
    Tail128Back15(mem, d, s, r, j);
  }

  /** COPY_BLOCK_128_BACK31. */
  method Tail128Back31(mem: array<Byte>, dst: nat, src: nat, n: nat, ghost j: Job)
    requires JobOk(j) && j.dst <= dst && Upto(mem[..], j, dst - j.dst) && src == j.src + (dst - j.dst)
    requires dst + n == j.dst + j.size && n <= 128 && 32 <= j.size
    modifies mem
    ensures Upto(mem[..], j, j.size)
  {
    hide Upto;
    var d, s, r := dst, src, n;
    if r >= 64 {
      r := r - 64;
      Mov(Avx2, mem, d, s, 64, j, d - j.dst);
      s, d := s + 64, d + 64;
    }
    if r > 32 {
      Mov(Avx2, mem, d, s, 32, j, d - j.dst);
      Mov(Avx2, mem, d + r - 32, s + r - 32, 32, j, d + 32 - j.dst);
      return;
    }
    if r > 0 {
      Mov(Avx2, mem, d + r - 32, s + r - 32, 32, j, d - j.dst);
    }
  }

  /** COPY_BLOCK_128_BACK63. */
  method Tail128Back63(mem: array<Byte>, dst: nat, src: nat, n: nat, ghost j: Job)
    requires JobOk(j) && j.dst <= dst && Upto(mem[..], j, dst - j.dst) && src == j.src + (dst - j.dst)
    requires dst + n == j.dst + j.size && n <= 128 && 64 <= j.size
    modifies mem
    ensures Upto(mem[..], j, j.size)
  {
    hide Upto;
    if n > 64 {
      Mov(Avx512, mem, dst, src, 64, j, dst - j.dst);
      Mov(Avx512, mem, dst + n - 64, src + n - 64, 64, j, dst + 64 - j.dst);
      return;
    }
    if n > 0 {
      Mov(Avx512, mem, dst + n - 64, src + n - 64, 64, j, dst - j.dst);
    }
  }

  // ---------- The unaligned loop of the SSE form ----------

  /** _mm_alignr_epi8: 16 bytes of the two registers, from a byte offset on. */
  function Alignr(hi: seq<Byte>, lo: seq<Byte>, offset: nat): (r: seq<Byte>)
    requires |hi| == |lo| == 16 && 1 <= offset <= 15
    ensures |r| == 16
  {
    (lo + hi)[offset..offset + 16]
  }

  /** Two neighbouring aligned loads make the unaligned load between them. */
  lemma AlignrJoins(m: seq<Byte>, at: nat, offset: nat)
    requires at + 32 <= |m| && 1 <= offset <= 15
    ensures Alignr(m[at + 16..at + 32], m[at..at + 16], offset) == m[at + offset..at + offset + 16]
  {
    var lo, hi := m[at..at + 16], m[at + 16..at + 32];
    var r, u := Alignr(hi, lo, offset), m[at + offset..at + offset + 16];
    forall i | 0 <= i < 16 ensures r[i] == u[i] {
      assert r[i] == (lo + hi)[offset + i];
    }
  }

  /** The mask step after a loop of the macro: what is left once blocks are taken from len, so
      that at least 16 - offset bytes remain.  size_t arithmetic wraps at a multiple of block. */
  function Left(len: nat, offset: nat, block: nat): int
    requires block > 0
  {
    (len - 16 + offset) % block + 16 - offset
  }

  /** The mask steps leave len, and with it the pointers, as they are exactly when the loop has
      left less than a block more than those bytes. */
  lemma LeftIsLen(len: nat, offset: nat, block: nat)
    requires block > 0
    ensures Left(len, offset, block) == len <==> 16 - offset <= len < block + 16 - offset
  {
  }

  /** The bytes joined for group i are those of the source. */
  lemma JoinedIsRight(m: seq<Byte>, j: Job, k: nat, offset: nat, i: nat, reg: seq<Byte>)
    requires JobOk(j) && Upto(m, j, k) && k + 16 * i + 16 <= j.size
    requires 1 <= offset <= 15 && offset <= j.src + k && j.src + k - offset + 16 * i + 32 <= |m|
    requires var at := j.src + k - offset + 16 * i;
             reg == Alignr(m[at + 16..at + 32], m[at..at + 16], offset)
    ensures reg == j.m[j.src + k + 16 * i..j.src + k + 16 * i + 16]
  {
    AlignrJoins(m, j.src + k - offset + 16 * i, offset);
    SourceKept(m, j, k, k + 16 * i, 16);
  }

  /** Register g holds the 16 bytes from at + 16 g on. */
  predicate Loaded(xmm: seq<seq<Byte>>, m: seq<Byte>, at: nat)
    requires at + 16 * |xmm| <= |m|
  {
    forall g :: 0 <= g < |xmm| ==> xmm[g] == m[at + 16 * g..at + 16 * g + 16]
  }

  method LoadRegs(mem: array<Byte>, at: nat, count: nat) returns (xmm: seq<seq<Byte>>)
    requires at + 16 * count <= mem.Length
    ensures |xmm| == count && Loaded(xmm, mem[..], at)
  {
    xmm := [];
    for i := 0 to count
      invariant |xmm| == i && Loaded(xmm, mem[..], at)
    {
      xmm := xmm + [mem[at + 16 * i..at + 16 * i + 16]];
    }
  }

  /** One pass of a loop of the macro, which is written out there: groups of 16 bytes, each joined
      from two of the registers, all of which are loaded before the stores. */
  method MovJoined(mem: array<Byte>, dst: nat, src: nat, offset: nat, groups: nat, ghost j: Job)
    requires JobOk(j) && j.dst <= dst && Upto(mem[..], j, dst - j.dst) && src == j.src + (dst - j.dst)
    requires 1 <= offset <= 15 && offset <= src && groups * 16 + 16 - offset <= j.dst + j.size - dst
    modifies mem
    ensures Upto(mem[..], j, dst + groups * 16 - j.dst)
  {
    hide Upto, Put, Alignr;
    ghost var m, k := mem[..], dst - j.dst;
    UptoBounds(m, j, k);
    var xmm := LoadRegs(mem, src - offset, groups + 1);
    for i := 0 to groups
      invariant Upto(mem[..], j, k + 16 * i)
    {
      var reg := Alignr(xmm[i + 1], xmm[i], offset);
      JoinedIsRight(m, j, k, offset, i, reg);
      PutUpto(mem[..], j, k + 16 * i, k + 16 * i, reg);
      Store(mem, dst + 16 * i, reg);
    }
  }

  /** MOVEUNALIGNED_LEFT47_IMM: most of the len bytes, by joined loads; the pointers and the
      number of bytes left when it is done. */
  method MoveUnalignedLeft47(mem: array<Byte>, dst: nat, src: nat, len: nat, offset: nat, ghost j: Job)
    returns (d: nat, s: nat, left: nat)
    requires JobOk(j) && j.dst <= dst && Upto(mem[..], j, dst - j.dst) && src == j.src + (dst - j.dst)
    requires 1 <= offset <= 15 && offset <= src && dst + len == j.dst + j.size && 16 - offset <= len
    modifies mem
    ensures j.dst <= d && Upto(mem[..], j, d - j.dst) && s == j.src + (d - j.dst)
    ensures d + left == j.dst + j.size && left <= 47
  {
    hide Upto;
    d, s, left := dst, src, len;
    while left >= 128 + 16 - offset
      invariant j.dst <= d && Upto(mem[..], j, d - j.dst) && s == j.src + (d - j.dst) && offset <= s
      invariant d + left == j.dst + j.size && 16 - offset <= left
    {
      MovJoined(mem, d, s, offset, 8, j);
      d, s, left := d + 128, s + 128, left - 128;
    }
    var now := Left(left, offset, 128);
    LeftIsLen(left, offset, 128);
    d, s, left := d + (left - now), s + (left - now), now;
    if left >= 32 + 16 - offset {
      while left >= 32 + 16 - offset
        invariant j.dst <= d && Upto(mem[..], j, d - j.dst) && s == j.src + (d - j.dst) && offset <= s
        invariant d + left == j.dst + j.size && 16 - offset <= left
      {
        MovJoined(mem, d, s, offset, 2, j);
        d, s, left := d + 32, s + 32, left - 32;
      }
      now := Left(left, offset, 32);
      LeftIsLen(left, offset, 32);
      d, s, left := d + (left - now), s + (left - now), now;
    }
  }

  // ---------- rte_memcpy_generic ----------

  /** The step that aligns the destination: it copies one unaligned block and moves the pointers
      by fewer bytes than that.  extra is what is copied beyond the first aligned address. */
  method AlignStore(cpu: Cpu, mem: array<Byte>, dst: nat, src: nat, n: nat, extra: nat, ghost j: Job)
    returns (d: nat, s: nat, left: nat)
    requires JobOk(j) && Upto(mem[..], j, 0) && dst == j.dst && src == j.src && n == j.size > 128
    requires extra == if cpu.Sse? then 16 else 0
    modifies mem
    ensures j.dst <= d && Upto(mem[..], j, d - j.dst) && s == j.src + (d - j.dst)
    ensures d + left == j.dst + j.size && d % Width(cpu) == 0 && d < dst + 64
    ensures d == dst || d >= dst + extra
  {
    d, s, left := dst, src, n;
    var width := Width(cpu);
    var offset := dst % width;
    hide Upto;
    if offset > 0 {
      NextAligned(dst, width, if cpu.Sse? then 2 else 1);
      offset := width - offset + extra;
      left := left - offset;
      Mov(cpu, mem, dst, src, width + extra, j, 0);
      s, d := src + offset, dst + offset;
      UptoLess(mem[..], j, width + extra, offset);
    }
  }

  lemma NextAligned(x: nat, w: nat, k: nat)
    requires w > 0 && k > 0
    ensures (x - x % w + k * w) % w == 0
  {
    assert x - x % w + k * w == w * (x / w + k) + 0 by { assert x == w * (x / w) + x % w; }
    ModOf(w, x / w + k, 0);
  }

  lemma UptoLess(m: seq<Byte>, j: Job, k: nat, o: nat)
    requires JobOk(j) && Upto(m, j, k) && o <= k
    ensures Upto(m, j, o)
  {
  }

  method GenericSse(mem: array<Byte>, dst: nat, src: nat, n: nat, ghost j: Job)
    requires JobOk(j) && Upto(mem[..], j, 0) && dst == j.dst && src == j.src && n == j.size
    modifies mem
    ensures Upto(mem[..], j, n)
  {
    hide Upto;
    if n < 16 {
      MovSmall(mem, dst, src, n, j);
    } else if n <= 32 {
      Mov(Sse, mem, dst, src, 16, j, 0);
      Mov(Sse, mem, dst + n - 16, src + n - 16, 16, j, 16);
    } else if n <= 48 {
      Mov(Sse, mem, dst, src, 32, j, 0);
      Mov(Sse, mem, dst + n - 16, src + n - 16, 16, j, 32);
    } else if n <= 64 {
      Mov(Sse, mem, dst, src, 32, j, 0);
      Mov(Sse, mem, dst + 32, src + 32, 16, j, 32);
      Mov(Sse, mem, dst + n - 16, src + n - 16, 16, j, 48);
    } else if n <= 128 {
      Tail128Back15(mem, dst, src, n, j);
    } else if n <= 512 {
      if n >= 256 {
        Mov(Sse, mem, dst, src, 128, j, 0);
        Mov(Sse, mem, dst + 128, src + 128, 128, j, 128);
        Tail255Back15(mem, dst + 256, src + 256, n - 256, j);
      } else {
        Tail255Back15(mem, dst, src, n, j);
      }
    } else {
      var d, s, left := AlignStore(Sse, mem, dst, src, n, 16, j);
      var offset := s % 16;
      if offset == 0 {
        while left >= 256
          invariant j.dst <= d && Upto(mem[..], j, d - j.dst) && s == j.src + (d - j.dst)
          invariant d + left == j.dst + j.size
        {
          Mov(Sse, mem, d, s, 256, j, d - j.dst);
          d, s, left := d + 256, s + 256, left - 256;
        }
        Tail255Back15(mem, d, s, left, j);
      } else {
        d, s, left := MoveUnalignedLeft47(mem, d, s, left, offset, j);
        Tail64Back15(mem, d, s, left, j);
      }
    }
  }

  /** rte_mov128blocks and rte_mov512blocks: whole blocks, each loaded into registers before it
      is stored. */
  method MovBlocks(mem: array<Byte>, dst: nat, src: nat, n: nat, block: nat, ghost j: Job)
    requires JobOk(j) && j.dst <= dst && Upto(mem[..], j, dst - j.dst) && src == j.src + (dst - j.dst)
    requires dst + n == j.dst + j.size && block > 0
    modifies mem
    ensures Upto(mem[..], j, dst + (n - n % block) - j.dst)
  {
    hide Upto;
    var d, s, left := dst, src, n;
    while left >= block
      invariant j.dst <= d && Upto(mem[..], j, d - j.dst) && s == j.src + (d - j.dst)
      invariant d + left == j.dst + j.size && 0 <= left && left % block == n % block
    {
      MovReg(mem, d, s, block, j, d - j.dst);
      LessBlock(left, block);
      d, s, left := d + block, s + block, left - block;
    }
    ModOf(block, 0, left);
  }

  lemma LessBlock(left: nat, block: nat)
    requires 0 < block <= left
    ensures (left - block) % block == left % block
  {
    ModShift(left - block, block, 1);
  }

  method GenericAvx2(mem: array<Byte>, dst: nat, src: nat, n: nat, ghost j: Job)
    requires JobOk(j) && Upto(mem[..], j, 0) && dst == j.dst && src == j.src && n == j.size
    modifies mem
    ensures Upto(mem[..], j, n)
  {
    hide Upto;
    if n < 16 {
      MovSmall(mem, dst, src, n, j);
    } else if n <= 32 {
      Mov(Avx2, mem, dst, src, 16, j, 0);
      Mov(Avx2, mem, dst + n - 16, src + n - 16, 16, j, 16);
    } else if n <= 48 {
      Mov(Avx2, mem, dst, src, 16, j, 0);
      Mov(Avx2, mem, dst + 16, src + 16, 16, j, 16);
      Mov(Avx2, mem, dst + n - 16, src + n - 16, 16, j, 32);
    } else if n <= 64 {
      Mov(Avx2, mem, dst, src, 32, j, 0);
      Mov(Avx2, mem, dst + n - 32, src + n - 32, 32, j, 32);
    } else if n <= 256 {
      if n >= 128 {
        Mov(Avx2, mem, dst, src, 128, j, 0);
        Tail128Back31(mem, dst + 128, src + 128, n - 128, j);
      } else {
        Tail128Back31(mem, dst, src, n, j);
      }
    } else {
      var d, s, left := AlignStore(Avx2, mem, dst, src, n, 0, j);
      MovBlocks(mem, d, s, left, 128, j);
      var bits := left - left % 128;
      Tail128Back31(mem, d + bits, s + bits, left % 128, j);
    }
  }

  method GenericAvx512(mem: array<Byte>, dst: nat, src: nat, n: nat, ghost j: Job)
    requires JobOk(j) && Upto(mem[..], j, 0) && dst == j.dst && src == j.src && n == j.size
    modifies mem
    ensures Upto(mem[..], j, n)
  {
    hide Upto;
    if n < 16 {
      MovSmall(mem, dst, src, n, j);
    } else if n <= 32 {
      Mov(Avx512, mem, dst, src, 16, j, 0);
      Mov(Avx512, mem, dst + n - 16, src + n - 16, 16, j, 16);
    } else if n <= 64 {
      Mov(Avx512, mem, dst, src, 32, j, 0);
      Mov(Avx512, mem, dst + n - 32, src + n - 32, 32, j, 32);
    } else if n <= 512 {
      var d, s, left := dst, src, n;
      if left >= 256 {
        left := left - 256;
        Mov(Avx512, mem, d, s, 256, j, 0);
        s, d := s + 256, d + 256;
      }
      if left >= 128 {
        left := left - 128;
        Mov(Avx512, mem, d, s, 128, j, d - dst);
        s, d := s + 128, d + 128;
      }
      Tail128Back63(mem, d, s, left, j);
    } else {
      var d, s, left := AlignStore(Avx512, mem, dst, src, n, 0, j);
      BlocksAvx512(mem, d, s, left, j);
    }
  }

  /** The rest of a long AVX-512 copy, once the destination is aligned. */
  method BlocksAvx512(mem: array<Byte>, dst: nat, src: nat, n: nat, ghost j: Job)
    requires JobOk(j) && j.dst <= dst && Upto(mem[..], j, dst - j.dst) && src == j.src + (dst - j.dst)
    requires dst + n == j.dst + j.size && 64 <= j.size
    modifies mem
    ensures Upto(mem[..], j, j.size)
  {
    hide Upto;
    MovBlocks(mem, dst, src, n, 512, j);
    var bits := n - n % 512;
    var left, s, d := n % 512, src + bits, dst + bits;
    if left >= 128 {
      MovBlocks(mem, d, s, left, 128, j);
      bits := left - left % 128;
      left, s, d := left % 128, s + bits, d + bits;
    }
    Tail128Back63(mem, d, s, left, j);
  }

  /** rte_memcpy_aligned. */
  method Aligned(cpu: Cpu, mem: array<Byte>, dst: nat, src: nat, n: nat, ghost j: Job)
    requires JobOk(j) && Upto(mem[..], j, 0) && dst == j.dst && src == j.src && n == j.size
    modifies mem
    ensures Upto(mem[..], j, n)
  {
    hide Upto;
    if n < 16 {
      MovSmall(mem, dst, src, n, j);
    } else if n <= 32 {
      Mov(cpu, mem, dst, src, 16, j, 0);
      Mov(cpu, mem, dst + n - 16, src + n - 16, 16, j, 16);
    } else if n <= 64 {
      Mov(cpu, mem, dst, src, 32, j, 0);
      Mov(cpu, mem, dst + n - 32, src + n - 32, 32, j, 32);
    } else {
      var d, s, left := dst, src, n;
      while left >= 64
        invariant dst <= d && Upto(mem[..], j, d - dst) && s == src + (d - dst)
        invariant d + left == dst + n && (d - dst) % 64 == 0 && (left < n ==> d >= dst + 64)
      {
        Mov(cpu, mem, d, s, 64, j, d - dst);
        d, s, left := d + 64, s + 64, left - 64;
      }
      Mov(cpu, mem, d + left - 64, s + left - 64, 64, j, d - dst);
    }
  }

  /** rte_memcpy: for every length, every alignment and regions that do not overlap, a plain copy
      of n bytes that changes nothing else; and a copy of a region to itself, which leaves memory as
      it is. */
  method RteMemcpy(cpu: Cpu, mem: array<Byte>, dst: nat, src: nat, n: nat) returns (ret: nat)
    requires dst + n <= mem.Length && src + n <= mem.Length && ApartOrSame(dst, src, n)
    modifies mem
    ensures mem[..] == Copied(old(mem[..]), dst, src, n) && ret == dst
    ensures dst == src ==> mem[..] == old(mem[..])
  {
    ghost var j := Job(mem[..], dst, src, n);
    StartUpto(j);
    hide Upto, Copied;
    if dst % Width(cpu) == 0 && src % Width(cpu) == 0 {
      Aligned(cpu, mem, dst, src, n, j);
    } else {
      match cpu
      case Sse => GenericSse(mem, dst, src, n, j);
      case Avx2 => GenericAvx2(mem, dst, src, n, j);
      case Avx512 => GenericAvx512(mem, dst, src, n, j);
    }
    UptoAll(mem[..], j);
    if dst == src { CopiedSame(j.m, dst, n); }
    ret := dst;
  }
}
