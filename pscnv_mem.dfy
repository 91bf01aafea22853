/** Buffer objects of the pscnv memory manager: the size a new bo gets, its
    division into chunks, the bounds-checked word access that finds the
    chunk holding an offset, and the movable PRAMIN window through which
    VRAM words are read and written. */
module PscnvMem {
  import opened Util
  import opened Text

  const PAGE_SIZE: nat := 0x1000
  const LARGE_PAGE: nat := 0x20000
  /** Sizes at or above 2^40 are refused. */
  const MAX_SIZE: nat := 0x100_0000_0000
  const MIB: nat := 0x10_0000
  const KIB: nat := 0x400
  /** The value a read that is refused returns. */
  const BAD_READ: u32 := 42

  // ---------------------------------------------------------------------
  // pscnv_mem_human_readable

  /** The first n characters, as `snprintf` into a 16-byte buffer keeps
      15 of them and the terminator. */
  function Truncate(s: string, n: nat): (t: string)
    ensures |t| <= n && |t| <= |s| && t == s[..|t|]
    ensures |s| <= n ==> t == s
  {
    if |s| <= n then s else s[..n]
  }

  /** `pscnv_mem_human_readable`: whole mebibytes from 1 MiB on, whole
      kibibytes from 1 KiB on, bytes below that. */
  function HumanReadable(val: u64): (s: string)
    ensures |s| <= 15
  {
    var full :=
      if val >= MIB then DecOf(val / MIB) + "MB"
      else if val >= KIB then DecOf(val / KIB) + "kB"
      else DecOf(val) + " Byte";
    Truncate(full, 15)
  }

  /** Printed, a number followed by a unit reads back as that number. */
  lemma DecWithUnit(n: nat, k: nat, unit: string)
    requires n < Pow10(k) && k >= 1 && k + |unit| <= 15
    ensures var s := DecOf(n) + unit;
      |s| <= 15 && s[|s| - |unit|..] == unit && AllDec(s[..|s| - |unit|]) &&
      ParseDec(s[..|s| - |unit|]) == n
  {
    DecLength(n, k);
    ParseDecOf(n);
    var s := DecOf(n) + unit;
    assert s[..|s| - |unit|] == DecOf(n);
  }

  /** For every size a bo can have the text is not cut, and its number
      reads back as the size in the unit it names. */
  lemma HumanReadableParses(val: u64)
    requires val < MAX_SIZE
    ensures var s := HumanReadable(val);
      (val >= MIB ==> (|s| >= 2 && s[|s| - 2..] == "MB" && AllDec(s[..|s| - 2]) &&
        ParseDec(s[..|s| - 2]) == val / MIB)) &&
      (KIB <= val < MIB ==> (|s| >= 2 && s[|s| - 2..] == "kB" && AllDec(s[..|s| - 2]) &&
        ParseDec(s[..|s| - 2]) == val / KIB)) &&
      (val < KIB ==> (|s| >= 5 && s[|s| - 5..] == " Byte" && AllDec(s[..|s| - 5]) &&
        ParseDec(s[..|s| - 5]) == val))
  {
    assert Pow10(7) == 10_000_000;
    if val >= MIB {
      DecWithUnit(val / MIB, 7, "MB");
    } else if val >= KIB {
      DecWithUnit(val / KIB, 7, "kB");
    } else {
      DecWithUnit(val, 7, " Byte");
    }
  }

  // ---------------------------------------------------------------------
  // Sizes and chunks

  /** The kernel's `roundup(x, y)`: x rounded up to a multiple of y. */
  function RoundUp(x: nat, y: nat): (r: nat)
    requires y > 0
    ensures r % y == 0 && x <= r < x + y
  {
    var q := (x + y - 1) / y;
    assert q * y + (x + y - 1) % y == x + y - 1;
    MultipleMod(y, q);
    assert y * q == q * y;
    q * y
  }

  lemma MulLe(a: nat, b: int, y: nat)
    requires a <= b
    ensures a * y <= b * y
  {
    assert b * y == a * y + (b - a) * y;
  }

  /** A whole number of pages is a whole number of 32-bit words. */
  lemma PagesAreWords(x: nat)
    requires x % PAGE_SIZE == 0
    ensures x % 4 == 0 && (x / 4) * 4 == x
  {
    var q := x / PAGE_SIZE;
    assert x == (1024 * q) * 4;
  }

  /** Rounding a multiple of y up to y changes nothing. */
  lemma RoundUpExact(x: nat, y: nat)
    requires y > 0 && x % y == 0
    ensures RoundUp(x, y) == x
  {
    var r := RoundUp(x, y);
    if r != x {
      MultipleGap(r, x, y);
    }
  }

  /** A multiple of 128 KiB is a multiple of the 4 KiB page. */
  lemma LargeIsPages(x: nat)
    requires x % LARGE_PAGE == 0
    ensures x % PAGE_SIZE == 0
  {
    var q := x / LARGE_PAGE;
    assert x == (32 * q) * PAGE_SIZE;
    MultipleMod(PAGE_SIZE, 32 * q);
  }

  /** The size `pscnv_mem_alloc` gives a bo: none for 0 or for 2^40 and
      more; otherwise rounded up to whole pages, and to whole 128 KiB
      pages for large-page VRAM. */
  function AllocSize(size: u64, large: bool): (r: Option<nat>)
    ensures r.None? <==> size == 0 || size >= MAX_SIZE
    ensures r.Some? ==> size <= r.value <= MAX_SIZE && r.value % PAGE_SIZE == 0
    ensures r.Some? && !large ==> r.value < size + PAGE_SIZE
    ensures r.Some? && large ==> r.value % LARGE_PAGE == 0 && r.value < size + LARGE_PAGE
  {
    if size >= MAX_SIZE || size == 0 then None
    else
      var paged := AlignDown(size + PAGE_SIZE - 1, PAGE_SIZE);
      var again := RoundUp(paged, PAGE_SIZE);
      RoundUpExact(paged, PAGE_SIZE);
      assert size <= again < size + PAGE_SIZE;
      if large then
        var big := RoundUp(again, LARGE_PAGE);
        LargeIsPages(big);
        LargeTight(size, again, big);
        LargeFits(again, big);
        Some(big)
      else Some(again)
  }

  /** Rounding to 128 KiB after rounding to pages is no coarser than
      rounding to 128 KiB at once: the result is less than 128 KiB past
      the size. */
  lemma LargeTight(size: nat, again: nat, big: nat)
    requires again % PAGE_SIZE == 0 && size <= again < size + PAGE_SIZE
    requires big % LARGE_PAGE == 0 && again <= big < again + LARGE_PAGE
    ensures big < size + LARGE_PAGE
  {
    if big >= size + LARGE_PAGE {
      var m := big - LARGE_PAGE;
      MultipleDiff(big, LARGE_PAGE, LARGE_PAGE);
      LargeIsPages(m);
      MultipleGap(again, m, PAGE_SIZE);
    }
  }

  /** Rounding a size of at most 2^40 up to 128 KiB stays within 2^40,
      which is itself a multiple of 128 KiB. */
  lemma LargeFits(x: nat, r: nat)
    requires x <= MAX_SIZE && r % LARGE_PAGE == 0 && x <= r < x + LARGE_PAGE
    ensures r <= MAX_SIZE
  {
    assert MAX_SIZE % LARGE_PAGE == 0;
    if r > MAX_SIZE {
      MultipleGap(r, MAX_SIZE, LARGE_PAGE);
    }
  }

  /** `dev_priv->chunk_size` as `pscnv_mem_init` sets it: the module
      parameter in units of 128 KiB, or 0 (no chunking) for a parameter
      of 0 or less. */
  function InitChunkSize(requested: int): (cs: nat)
    requires requested < 0x4000
    ensures cs % LARGE_PAGE == 0 && (cs == 0 <==> requested <= 0)
  {
    if requested > 0 then
      MultipleMod(LARGE_PAGE, requested);
      LARGE_PAGE * requested
    else 0
  }

  /** `n_chunks`: enough chunks of cs bytes to hold size bytes, or one
      chunk when chunking is off. */
  function NChunks(size: nat, cs: nat): (n: nat)
    ensures size > 0 && cs > 0 ==> n >= 1 && (n - 1) * cs < size <= n * cs
    ensures cs == 0 ==> n == 1
  {
    if cs > 0 then
      var n := (size + cs - 1) / cs;
      assert n * cs + (size + cs - 1) % cs == size + cs - 1;
      assert (n - 1) * cs == n * cs - cs;
      n
    else 1
  }

  /** `pscnv_chunk_size`: the last chunk holds what is left of the bo,
      every other chunk is cs bytes. */
  function ChunkSize(size: u64, cs: u64, n: nat, idx: nat): (r: u64)
    requires idx < n
  {
    if idx + 1 == n then Sub64(size, (idx * cs) % TWO_64) else cs
  }

  /** The chunks of a bo are each non-empty and at most cs bytes (the
      whole bo when chunking is off), and chunk idx starts at idx * cs. */
  lemma ChunkBounds(size: u64, cs: u64, idx: nat)
    requires size > 0 && idx < NChunks(size, cs)
    ensures var c := ChunkSize(size, cs, NChunks(size, cs), idx);
      0 < c && (cs > 0 ==> c <= cs) && (cs == 0 ==> c == size) &&
      idx * cs + c <= size
  {
    var n := NChunks(size, cs);
    if cs > 0 && idx + 1 < n {
      assert (idx + 1) * cs <= (n - 1) * cs;
    } else if cs > 0 {
      assert idx * cs == (n - 1) * cs;
    }
  }

  /** The sizes of the first k chunks. */
  function ChunkTotal(size: u64, cs: u64, n: nat, k: nat): nat
    requires k <= n
  {
    if k == 0 then 0 else ChunkTotal(size, cs, n, k - 1) + ChunkSize(size, cs, n, k - 1)
  }

  /** The chunks tile the bo: the first k < n of them take k * cs bytes,
      and all n of them exactly the bo's size. */
  lemma {:induction false} ChunksTile(size: u64, cs: u64, k: nat)
    requires size > 0 && k <= NChunks(size, cs)
    ensures var n := NChunks(size, cs);
      ChunkTotal(size, cs, n, k) == if k == n then size else k * cs
  {
    var n := NChunks(size, cs);
    if k > 0 {
      ChunksTile(size, cs, k - 1);
      ChunkBounds(size, cs, k - 1);
      assert (k - 1) * cs + cs == k * cs;
    }
  }

  /** `pscnv_chunk_at_offset`: the chunk an offset falls in, truncated to
      the `uint32_t` it returns; 0 when chunking is off. */
  function ChunkAtOffset(offset: u64, cs: u64): (idx: u32)
  {
    if cs > 0 then (offset / cs) % TWO_32 else 0
  }

  /** Every offset inside a bo falls in one of its chunks, at an offset
      below that chunk's size. */
  lemma OffsetInChunk(size: u64, cs: u64, offset: u32)
    requires 0 < size && offset < size
    ensures var idx := ChunkAtOffset(offset, cs);
      idx < NChunks(size, cs) && idx * cs <= offset &&
      offset - idx * cs < ChunkSize(size, cs, NChunks(size, cs), idx)
  {
    if cs > 0 {
      var q := offset / cs;
      QuotientChunk(size, cs, offset, q);
      assert ChunkAtOffset(offset, cs) == q;
      var p := q * cs;
      if q + 1 == NChunks(size, cs) {
        assert p % TWO_64 == p;
        assert ChunkSize(size, cs, NChunks(size, cs), q) == size - p;
      } else {
        assert ChunkSize(size, cs, NChunks(size, cs), q) == cs;
      }
    }
  }

  /** With chunking on, offset / cs is a chunk of the bo, below 2^32,
      starting at or before the offset and less than cs before it. */
  lemma QuotientChunk(size: nat, cs: nat, offset: nat, q: nat)
    requires 0 < cs && offset < size && offset < TWO_32 && q == offset / cs
    ensures q < TWO_32 && q < NChunks(size, cs) && q * cs <= offset < q * cs + cs
  {
    var n := NChunks(size, cs);
    DivBounds(offset, cs);
    MulLe(1, cs, q);
    if q >= n {
      MulLe(n, q, cs);
    }
  }

  /** `offset - cnk_idx * chunk_size` in `unsigned`: exact for an offset
      at or after the chunk's start. */
  function InChunk(offset: u32, first: nat): (d: u32)
    ensures first <= offset ==> d == offset - first
  {
    (offset - first) % TWO_32
  }

  datatype AllocType = Unallocated | Vram | Sysram | Other(code: nat)

  /** Chunk idx exists and has VRAM or system memory behind it. */
  predicate Backed(types: seq<AllocType>, idx: nat)
  {
    idx < |types| && (types[idx].Vram? || types[idx].Sysram?)
  }

  /** A buffer object: its size, its chunks and, as one word per 4 bytes,
      its contents wherever its chunks live. */
  class Bo {
    const size: u64
    const chunkSize: u64
    const nChunks: nat
    /** `chunks[i].idx`. */
    const chunkIdx: array<nat>
    /** `chunks[i].alloc_type`. */
    var allocType: seq<AllocType>
    const words: array<u32>

    ghost predicate Valid()
      reads this
    {
      0 < size && size % 4 == 0 && nChunks == NChunks(size, chunkSize) &&
      chunkIdx.Length == nChunks && |allocType| == nChunks &&
      words.Length * 4 == size
    }

    /** The bo part of `pscnv_mem_alloc`: size and chunk count as
        computed above, chunk i numbered i, every chunk unallocated and the
        contents zero. */
    constructor (size: u64, chunkSize: u64)
      requires 0 < size && size % PAGE_SIZE == 0
      ensures Valid() && fresh(chunkIdx) && fresh(words)
      ensures this.size == size && this.chunkSize == chunkSize
      ensures forall i :: 0 <= i < nChunks ==> chunkIdx[i] == i && allocType[i] == Unallocated
    {
      PagesAreWords(size);
      this.size := size;
      this.chunkSize := chunkSize;
      var n := NChunks(size, chunkSize);
      nChunks := n;
      var idx := new nat[n];
      var i := 0;
      while i < n
        invariant 0 <= i <= n
        invariant forall j :: 0 <= j < i ==> idx[j] == j
      {
        idx[i] := i;
        i := i + 1;
      }
      chunkIdx := idx;
      allocType := seq(n, _ => Unallocated);
      words := new u32[size / 4](_ => 0);
    }

    /** The offsets `nv_rv32` and `nv_wv32` accept: inside the bo and in
        a chunk that has memory behind it. */
    ghost predicate Accessible(offset: u32)
      requires Valid()
      reads this
    {
      offset < size && Backed(allocType, ChunkAtOffset(offset, chunkSize))
    }

    /** `nv_rv32` with `nv_rv32_chunk`: the word at the offset, or 42 for an
        offset outside the bo, outside its chunk or in a chunk with no
        memory. */
    method Rv32(offset: u32) returns (v: u32)
      requires Valid()
      ensures Accessible(offset) ==> v == words[offset / 4]
      ensures !Accessible(offset) ==> v == BAD_READ
    {
      var idx := ChunkAtOffset(offset, chunkSize);
      if offset >= size || idx >= nChunks {
        return BAD_READ;
      }
      OffsetInChunk(size, chunkSize, offset);
      var first := idx * chunkSize;
      var inChunk := InChunk(offset, first);
      if inChunk >= ChunkSize(size, chunkSize, nChunks, idx) {
        return BAD_READ;
      }
      match allocType[idx]
      case Unallocated => v := BAD_READ;
      case Vram => v := words[offset / 4];
      case Sysram => v := words[offset / 4];
      case Other(_) => v := BAD_READ;
    }

    /** `nv_wv32` with `nv_wv32_chunk`: the word at the offset becomes val;
        an offset that would be refused on reading changes nothing. */
    method Wv32(offset: u32, val: u32)
      requires Valid()
      modifies words
      ensures Accessible(offset) ==> words[..] == old(words[..])[offset / 4 := val]
      ensures !Accessible(offset) ==> words[..] == old(words[..])
    {
      var idx := ChunkAtOffset(offset, chunkSize);
      if offset >= size || idx >= nChunks {
        return;
      }
      OffsetInChunk(size, chunkSize, offset);
      var first := idx * chunkSize;
      var inChunk := InChunk(offset, first);
      if inChunk >= ChunkSize(size, chunkSize, nChunks, idx) {
        return;
      }
      match allocType[idx]
      case Unallocated =>
      case Vram => words[offset / 4] := val;
      case Sysram => words[offset / 4] := val;
      case Other(_) =>
    }
  }

  /** The bookkeeping part of `pscnv_mem_alloc`: null for a size of 0 or
      of 2^40 and more, otherwise a bo of the rounded size, cut into
      chunks of the configured chunk size, with no memory behind them yet. */
  method MemAlloc(size: u64, large: bool, chunkSize: u64) returns (bo: Bo?)
    ensures bo == null <==> AllocSize(size, large).None?
    ensures bo != null ==> (fresh(bo) && bo.Valid() &&
      bo.size == AllocSize(size, large).value && bo.chunkSize == chunkSize &&
      forall i :: 0 <= i < bo.nChunks ==> bo.chunkIdx[i] == i && bo.allocType[i] == Unallocated)
  {
    var rounded := AllocSize(size, large);
    if rounded.None? {
      return null;
    }
    bo := new Bo(rounded.value, chunkSize);
  }

  // ---------------------------------------------------------------------
  // The PRAMIN window

  /** `addr & 0xfffffff0000`: bits 16 to 43 of the address, the 64 KiB
      window the address lies in. */
  function WindowBase(addr: u64): (b: nat)
    ensures b % 0x10000 == 0 && b < 0x1000_0000_0000
  {
    var r := addr % 0x1000_0000_0000 - addr % 0x10000;
    assert addr % 0x1000_0000_0000 % 0x10000 == addr % 0x10000;
    MultipleMod(0x10000, (addr % 0x1000_0000_0000) / 0x10000);
    r
  }

  /** `addr & 0xffff`: the offset inside the window. */
  function WindowOffset(addr: u64): (o: nat)
    ensures o < 0x10000
  {
    addr % 0x10000
  }

  /** Base and offset put back together give the address, as far as its
      44 bits reach. */
  lemma WindowSplit(addr: u64)
    ensures WindowBase(addr) + WindowOffset(addr) == addr % 0x1000_0000_0000
    ensures addr < 0x1000_0000_0000 ==> WindowBase(addr) + WindowOffset(addr) == addr
  {
  }

  /** `dev_priv->pramin_start` and the VRAM behind the window. Register
      0x1700 places the window; what it was set to is kept as the list of
      values written to it. */
  class Pramin {
    var start: u64
    var windowWrites: seq<nat>
    var vram: map<nat, u32>

    constructor (start: u64, vram: map<nat, u32>)
      ensures this.start == start && windowWrites == [] && this.vram == vram
    {
      this.start := start;
      windowWrites := [];
      this.vram := vram;
    }

    /** VRAM reads as zero where nothing was stored. */
    function Cell(a: nat): u32
      reads this
    {
      if a in vram then vram[a] else 0
    }

    /** Moves the window to the address's base, writing `base >> 16` to
        register 0x1700 only when the base differs from `pramin_start`. */
    method Place(addr: u64)
      modifies this
      ensures start == WindowBase(addr) && vram == old(vram)
      ensures windowWrites == old(windowWrites) +
        (if old(start) != WindowBase(addr) then [WindowBase(addr) / 0x10000] else [])
    {
      var base := WindowBase(addr);
      if start != base {
        windowWrites := windowWrites + [base / 0x10000];
        start := base;
      }
    }

    /** `nv_rv32_pramin`: the word at window base plus offset. */
    method Read(addr: u64) returns (data: u32)
      modifies this
      ensures start == WindowBase(addr) && vram == old(vram)
      ensures windowWrites == old(windowWrites) +
        (if old(start) != WindowBase(addr) then [WindowBase(addr) / 0x10000] else [])
      ensures data == Cell(addr % 0x1000_0000_0000)
    {
      Place(addr);
      WindowSplit(addr);
      data := Cell(start + WindowOffset(addr));
    }

    /** `nv_wv32_pramin`: the word at window base plus offset becomes val. */
    method Write(addr: u64, val: u32)
      modifies this
      ensures start == WindowBase(addr)
      ensures windowWrites == old(windowWrites) +
        (if old(start) != WindowBase(addr) then [WindowBase(addr) / 0x10000] else [])
      ensures vram == old(vram)[addr % 0x1000_0000_0000 := val]
    {
      Place(addr);
      WindowSplit(addr);
      vram := vram[start + WindowOffset(addr) := val];
    }
  }
}
