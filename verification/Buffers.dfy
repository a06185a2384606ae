/** Filling and checking red zones and freed buffers (memchk_buffer.c). */
module Buffers {
  import opened Bits
  import opened Blocks

  newtype byte = x: int | 0 <= x < 256

  const REDZONE_SIZE := 16
  const REDZONE_PATTERN: byte := 0x5a
  const INITBUF_PATTERN: byte := 0xa5
  const FREEDBUF_PATTERN: byte := 0xcc

  /** The user area lies inside the buffer, with at least one byte of red zone behind its start. */
  predicate WellFormed(m: Memblk)
  {
    m.buf <= m.ptr < m.buf + m.bufsize && m.ptr + m.usrsize <= m.buf + m.bufsize
  }

  predicate Fits(m: Memblk, limit: nat)
  {
    WellFormed(m) && m.buf + m.bufsize <= limit
  }

  predicate InBuffer(m: Memblk, a: nat)
  {
    m.buf <= a < m.buf + m.bufsize
  }

  predicate InUser(m: Memblk, a: nat)
  {
    m.ptr <= a < m.ptr + m.usrsize
  }

  predicate InRedZone(m: Memblk, a: nat)
  {
    InBuffer(m, a) && !InUser(m, a)
  }

  ghost predicate RedZonesIntact(mem: seq<byte>, m: Memblk)
    requires Fits(m, |mem|)
  {
    forall a {:trigger mem[a]} :: 0 <= a < |mem| && InRedZone(m, a) ==> mem[a] == REDZONE_PATTERN
  }

  ghost predicate Poisoned(mem: seq<byte>, m: Memblk)
    requires Fits(m, |mem|)
  {
    forall a {:trigger mem[a]} :: 0 <= a < |mem| && InBuffer(m, a) ==> mem[a] == FREEDBUF_PATTERN
  }

  /** Block `m` has been laid out in memory; nothing else has changed. */
  ghost predicate LaidOut(before: seq<byte>, after: seq<byte>, m: Memblk)
  {
    && |before| == |after|
    && forall a {:trigger after[a]} :: 0 <= a < |after| ==>
         after[a] == if InUser(m, a) then INITBUF_PATTERN else if InBuffer(m, a) then REDZONE_PATTERN else before[a]
  }

  method Fill(mem: array<byte>, at: nat, n: nat, v: byte)
    requires at + n <= mem.Length
    modifies mem
    ensures forall a {:trigger mem[a]} :: 0 <= a < mem.Length ==> mem[a] == if at <= a < at + n then v else old(mem[a])
  {
    forall a | at <= a < at + n {
      mem[a] := v;
    }
  }

  /** Lay both red zones and, for a new block, the initial pattern of the user area. */
  method SetAllocatedBuffer(mem: array<byte>, m: Memblk, init: bool)
    requires Fits(m, mem.Length)
    modifies mem
    ensures forall a {:trigger mem[a]} :: 0 <= a < mem.Length ==>
      mem[a] == if InRedZone(m, a) then REDZONE_PATTERN
                else if init && InUser(m, a) then INITBUF_PATTERN
                else old(mem[a])
  {
    var leading := m.ptr - m.buf;
    var trailing := m.bufsize - leading - m.usrsize;
    Fill(mem, m.buf, leading, REDZONE_PATTERN);
    if init {
      Fill(mem, m.buf + leading, m.usrsize, INITBUF_PATTERN);
    }
    Fill(mem, m.buf + leading + m.usrsize, trailing, REDZONE_PATTERN);
  }

  /** How far below the user area the red zone is damaged: 0 if it is not. */
  ghost predicate UnderRun(mem: seq<byte>, m: Memblk, n: nat)
    requires Fits(m, |mem|)
  {
    && n <= m.ptr - m.buf
    && (forall a :: m.buf <= a < m.ptr - n ==> mem[a] == REDZONE_PATTERN)
    && (n > 0 ==> mem[m.ptr - n] != REDZONE_PATTERN)
  }

  /** How far above the user area the red zone is damaged: 0 if it is not. */
  ghost predicate OverRun(mem: seq<byte>, m: Memblk, n: nat)
    requires Fits(m, |mem|)
  {
    var top := m.ptr + m.usrsize;
    && n <= m.buf + m.bufsize - top
    && (forall a :: top + n <= a < m.buf + m.bufsize ==> mem[a] == REDZONE_PATTERN)
    && (n > 0 ==> mem[top + n - 1] != REDZONE_PATTERN)
  }

  /**
    Scan the leading red zone forwards and the trailing one backwards; `under` and `over` are the
    numbers of bytes reported, 0 standing for no report.
   */
  method CheckAllocatedBuffer(mem: array<byte>, m: Memblk) returns (ret: int, under: nat, over: nat)
    requires Fits(m, mem.Length)
    ensures ret == if RedZonesIntact(mem[..], m) then 0 else -1
    ensures UnderRun(mem[..], m, under) && OverRun(mem[..], m, over)
    ensures ret == 0 <==> under == 0 && over == 0
  {
    var leading := m.ptr - m.buf;
    var trailing := m.bufsize - leading - m.usrsize;
    under, over := 0, 0;
    var i := 0;
    while i < leading
      invariant 0 <= i <= leading && under == 0
      invariant forall a :: m.buf <= a < m.buf + i ==> mem[a] == REDZONE_PATTERN
    {
      if mem[m.buf + i] != REDZONE_PATTERN {
        under := leading - i;
        break;
      }
      i := i + 1;
    }
    i := trailing - 1;
    while i >= 0
      invariant -1 <= i < trailing && over == 0
      invariant forall a :: m.ptr + m.usrsize + i < a < m.buf + m.bufsize ==> mem[a] == REDZONE_PATTERN
      decreases i
    {
      if mem[m.ptr + m.usrsize + i] != REDZONE_PATTERN {
        over := i + 1;
        break;
      }
      i := i - 1;
    }
    ret := if under != 0 || over != 0 then -1 else 0;
    ghost var s := mem[..];
    if ret == 0 {
      assert forall a {:trigger s[a]} :: 0 <= a < |s| && InRedZone(m, a) ==> s[a] == REDZONE_PATTERN;
    } else if under != 0 {
      assert s[m.ptr - under] != REDZONE_PATTERN;
    } else {
      assert s[m.ptr + m.usrsize + over - 1] != REDZONE_PATTERN;
    }
  }

  method SetFreedBuffer(mem: array<byte>, m: Memblk)
    requires Fits(m, mem.Length)
    modifies mem
    ensures forall a {:trigger mem[a]} :: 0 <= a < mem.Length ==>
      mem[a] == if InBuffer(m, a) then FREEDBUF_PATTERN else old(mem[a])
  {
    Fill(mem, m.buf, m.bufsize, FREEDBUF_PATTERN);
  }

  /** The first byte of a freed buffer that was written; `offset` counts from the buffer's start. */
  method CheckFreedBuffer(mem: array<byte>, m: Memblk) returns (ret: int, offset: nat)
    requires Fits(m, mem.Length)
    ensures ret == if Poisoned(mem[..], m) then 0 else -1
    ensures ret != 0 ==> offset < m.bufsize && mem[m.buf + offset] != FREEDBUF_PATTERN
    ensures ret != 0 ==> forall a :: m.buf <= a < m.buf + offset ==> mem[a] == FREEDBUF_PATTERN
  {
    ret, offset := 0, 0;
    ghost var s := mem[..];
    while offset < m.bufsize
      invariant 0 <= offset <= m.bufsize
      invariant forall a :: m.buf <= a < m.buf + offset ==> mem[a] == FREEDBUF_PATTERN
    {
      if mem[m.buf + offset] != FREEDBUF_PATTERN {
        assert s[m.buf + offset] != FREEDBUF_PATTERN;
        ret := -1;
        return;
      }
      offset := offset + 1;
    }
    assert forall a {:trigger s[a]} :: 0 <= a < |s| && InBuffer(m, a) ==> s[a] == FREEDBUF_PATTERN;
  }

  /** Writing only inside the user area never damages a red zone. */
  lemma UserWritesAreSafe(before: seq<byte>, after: seq<byte>, m: Memblk)
    requires |before| == |after| && Fits(m, |before|) && RedZonesIntact(before, m)
    requires forall a :: 0 <= a < |before| && before[a] != after[a] ==> InUser(m, a)
    ensures RedZonesIntact(after, m)
  {
    forall a | 0 <= a < |after| && InRedZone(m, a)
      ensures after[a] == REDZONE_PATTERN
    {
      assert before[a] == REDZONE_PATTERN;
    }
  }

  // ----- Where the hooks put the user area -----

  /** Round an address up to a multiple of a power of two. */
  function AlignAddr(addr: nat, alignment: nat): nat
  {
    if alignment == 0 then addr else AndNot(addr + alignment - 1, alignment - 1)
  }

  lemma AlignAddrIs(addr: nat, alignment: nat)
    requires PowerOfTwo(alignment)
    ensures addr <= AlignAddr(addr, alignment) < addr + alignment
    ensures AlignAddr(addr, alignment) % alignment == 0 && AlignAddr(addr, 0) == addr
  {
    MaskedIsMultiple(addr + alignment - 1, alignment);
  }

  /** A plain block: 16 bytes of red zone on either side. */
  function PlainBlock(buf: nat, size: nat): Memblk
  {
    Memblk(buf, size + REDZONE_SIZE * 2, size, buf + REDZONE_SIZE)
  }

  /** Exactly 16 bytes of red zone lie before a user area of `size` bytes, and exactly 16 behind it. */
  ghost predicate PlainZones(m: Memblk, buf: nat, size: nat)
  {
    && WellFormed(m) && m.buf == buf && m.usrsize == size
    && m.ptr - m.buf == 16 && m.buf + m.bufsize - (m.ptr + m.usrsize) == 16
    && forall a: nat {:trigger InRedZone(m, a)} ::
         InRedZone(m, a) <==> buf <= a < buf + 16 || buf + 16 + size <= a < buf + 16 + size + 16
  }

  lemma PlainBlockIs(buf: nat, size: nat)
    ensures PlainZones(PlainBlock(buf, size), buf, size)
  {
  }

  /** An aligned block: the user area starts at the first multiple at or above `buf + 16`. */
  function AlignedBlock(buf: nat, size: nat, alignment: nat): Memblk
    requires alignment > 0
  {
    Memblk(buf, size + REDZONE_SIZE * 2 + alignment - 1, size, AlignAddr(buf + REDZONE_SIZE, alignment))
  }

  /** The user area starts at the least multiple at or above `buf + 16`; the red zones share `31 + alignment` bytes. */
  ghost predicate AlignedZones(m: Memblk, buf: nat, size: nat, alignment: nat)
    requires alignment > 0
  {
    var leading, trailing := m.ptr - m.buf, m.buf + m.bufsize - (m.ptr + m.usrsize);
    && WellFormed(m) && m.buf == buf && m.usrsize == size && m.ptr % alignment == 0
    && (forall p {:trigger p % alignment} :: buf + 16 <= p && p % alignment == 0 ==> m.ptr <= p)
    && 16 <= leading <= 15 + alignment && 16 <= trailing <= 15 + alignment && leading + trailing == 31 + alignment
  }

  lemma AlignedBlockIs(buf: nat, size: nat, alignment: nat)
    requires PowerOfTwo(alignment)
    ensures AlignedZones(AlignedBlock(buf, size, alignment), buf, size, alignment)
  {
    var ptr := AlignAddr(buf + REDZONE_SIZE, alignment);
    AlignAddrIs(buf + REDZONE_SIZE, alignment);
    forall p | buf + 16 <= p && p % alignment == 0
      ensures ptr <= p
    {
      MultiplesApart(p, ptr, alignment);
    }
  }

  lemma MultiplesApart(x: nat, y: nat, n: nat)
    requires n > 0 && x % n == 0 && y % n == 0
    ensures x < y ==> x + n <= y
  {
    assert x == x / n * n && y == y / n * n;
    assert y / n <= x / n ==> y / n * n <= x / n * n;
    assert y / n > x / n ==> (x / n + 1) * n <= y / n * n;
  }
}
