/** The instance memory of an NV50 channel: the channel's buffer object
    (bo) holds the page directory and, after it, instance objects handed
    out by a bump pointer, `instpos`, that only moves forward. */
module Nv50Chan {
  import opened Util
  import opened Bits

  const NV50_CHAN_PD: nat := 0x1400
  const NV84_CHAN_PD: nat := 0x0200
  const NV50_VM_PDE_COUNT: nat := 0x800
  /** `8 << ramht.bits` with the 9 bits a normal channel's RAMHT gets. */
  const RAMHT_BYTES: nat := 0x1000
  const RAMFC_BYTES: nat := 0x100
  /** A DMA object takes 0x18 bytes, rounded to 0x20. */
  const DMAOBJ_BYTES: nat := 0x20

  /** The size of the channel bo chosen by `nv50_chan_new`: 64 KiB for a
      normal channel, which keeps its object heap there; a minimal bo for
      the fake (BAR) channels, depending on the chipset. */
  function BoSize(cid: int, chipset: nat): (size: nat)
  {
    if cid >= 0 then 0x10000
    else if chipset == 0x50 then 0x6000
    else 0x5000
  }

  /** Where the page directory starts in the bo. */
  function ChanPd(chipset: nat): nat
  {
    if chipset == 0x50 then NV50_CHAN_PD else NV84_CHAN_PD
  }

  /** The first `instpos`: right after the page directory's entries. */
  function InstStart(chipset: nat): (p: nat)
    ensures p % 16 == 0 && p > 0
  {
    ChanPd(chipset) + NV50_VM_PDE_COUNT * 8
  }

  /** Every bo size leaves room after the page directory: a normal channel
      for its RAMHT and its RAMFC, a fake channel for the two objects it
      needs. */
  lemma BoHoldsObjects(cid: int, chipset: nat)
    ensures cid >= 0 ==> InstStart(chipset) + RAMHT_BYTES + RAMFC_BYTES <= BoSize(cid, chipset)
    ensures cid < 0 ==> InstStart(chipset) + 2 * DMAOBJ_BYTES <= BoSize(cid, chipset)
    ensures BoSize(cid, chipset) % 4 == 0
  {
  }

  /** `(size + 0xf) & ~0xf` in unbounded arithmetic: the size rounded up to
      a multiple of 16. */
  function Round16(size: nat): (r: nat)
    ensures r % 16 == 0 && size <= r < size + 16
  {
    AlignDown(size + 15, 16)
  }

  /** The same rounding computed in `uint32_t`, as `nv50_chan_iobj_new`
      writes it: the addition wraps for sizes above 0xfffffff0. */
  function Round16AsWritten(size: u32): (r: u32)
    ensures size <= 0xffff_fff0 ==> r == Round16(size)
    ensures size > 0xffff_fff0 ==> r == 0
  {
    AlignDown(Add32(size, 15), 16)
  }

  /** `nv50_chan_iobj_new` as written, on (result, next instpos): the
      bound test `instpos + size > bo->size` is computed in 32 bits, and so
      is the new `instpos`. */
  function IobjAsWritten(instpos: u32, size: u32, boSize: nat): (out: (int, int))
    ensures out.0 == 0 || out.0 == instpos
  {
    var r := Round16AsWritten(size);
    if Add32(instpos, r) > boSize then (0, instpos)
    else (instpos, Add32(instpos, r))
  }

  /** A size near 2^32 passes the 32-bit bound test: the object is handed
      out at 0x4200 and `instpos` moves back to 0x3200, so the next object
      overlaps it. */
  lemma IobjAsWrittenWraps()
    ensures IobjAsWritten(0x4200, 0xffff_f000, 0x10000) == (0x4200, 0x3200)
    ensures Round16AsWritten(0xffff_fff1) == 0
  {
  }

  /** Away from the wrap the code as written and the unbounded rounding
      and test agree. */
  lemma IobjAgrees(instpos: u32, size: u32, boSize: nat)
    requires size <= 0xffff_fff0 && instpos + Round16(size) < TWO_32
    ensures var r := Round16(size);
      IobjAsWritten(instpos, size, boSize) ==
        if instpos + r > boSize then (0, instpos) else (instpos, instpos + r)
  {
    var r := Round16(size);
    assert Round16AsWritten(size) == r;
    assert Add32(instpos, r) == instpos + r;
  }

  /** The end address of a DMA object, `start + size - 1` in `uint64_t`. */
  function DmaEnd(start: u64, size: u64): (end: u64)
    ensures size > 0 && start + size <= TWO_64 ==> end == start + size - 1
    ensures size == 0 ==> end == Sub64(start, 1)
  {
    Sub64(Add64(start, size), 1)
  }

  /** The six words `nv50_chan_dmaobj_new` writes: the type, the low 32
      bits of the end, the low 32 bits of the start, the high bits of both
      packed as `(end >> 32) << 24 | (start >> 32)`, and two zeros. */
  function DmaWords(ty: u32, start: u64, size: u64): (w: seq<u32>)
    ensures |w| == 6 && w[0] == ty && w[4] == 0 && w[5] == 0
  {
    var end := DmaEnd(start, size);
    [ty, Lo32(end), Lo32(start), Lo32(Or(Hi32(end) * Pow2(24), Hi32(start))), 0, 0]
  }

  /** The low 32 bits, as the `uint32_t` parameter of `nv_wv32` keeps them. */
  function Lo32(x: nat): (r: u32)
    ensures x < TWO_32 ==> r == x
  {
    x % TWO_32
  }

  /** `x >> 32`. */
  function Hi32(x: nat): (r: nat)
    ensures x == Hi32(x) * TWO_32 + Lo32(x)
  {
    x / TWO_32
  }

  lemma Pow2Of24()
    ensures Pow2(24) == 0x100_0000
  {
    assert Pow2(3) == 8;
    Pow2Sum(3, 3);
    Pow2Sum(6, 6);
    Pow2Sum(12, 12);
  }

  /** Within the 40-bit address space of the card the words give back the
      start and the end: the low words hold the low 32 bits, the fourth
      word the high bits of the start in its low byte and those of the end
      in its top byte. */
  lemma DmaWordsDecode(ty: u32, start: u64, size: u64)
    requires start < 0x100_0000_0000 && DmaEnd(start, size) < 0x100_0000_0000
    ensures var w, end := DmaWords(ty, start, size), DmaEnd(start, size);
      w[2] + (w[3] % 0x100) * TWO_32 == start &&
      w[1] + (w[3] / 0x100_0000) * TWO_32 == end
  {
    var end := DmaEnd(start, size);
    var hi, lo := Hi32(end), Hi32(start);
    Pow2Of24();
    OrDisjoint(hi, lo, 24);
    Pack(hi, lo);
  }

  /** Two bytes packed as `hi << 24 | lo` come apart again. */
  lemma Pack(hi: nat, lo: nat)
    requires hi < 0x100 && lo < 0x100
    ensures var p := hi * 0x100_0000 + lo;
      p < TWO_32 && p % 0x100 == lo && p / 0x100_0000 == hi
  {
  }

  /** Six word writes from index i lay w over the words there. */
  lemma Splice(s: seq<u32>, i: nat, w: seq<u32>)
    requires |w| == 6 && i + 6 <= |s|
    ensures s[i := w[0]][i + 1 := w[1]][i + 2 := w[2]][i + 3 := w[3]][i + 4 := w[4]][i + 5 := w[5]] ==
      s[..i] + w + s[i + 6..]
  {
  }

  class Channel {
    /** `ch->bo->size` in bytes. */
    const boSize: nat
    /** The bo's contents, one 32-bit word per 4 bytes. */
    const bo: array<u32>
    /** `ch->instpos`: the next free byte of instance memory. */
    var instpos: nat

    ghost predicate Valid()
      reads this
    {
      bo.Length * 4 == boSize && 0 < instpos <= boSize && instpos % 16 == 0
    }

    /** The bo of a new channel, zero-filled, with `instpos` after the
        page directory. */
    constructor (cid: int, chipset: nat)
      ensures Valid() && fresh(bo)
      ensures boSize == BoSize(cid, chipset) && instpos == InstStart(chipset)
    {
      BoHoldsObjects(cid, chipset);
      boSize := BoSize(cid, chipset);
      bo := new u32[BoSize(cid, chipset) / 4](_ => 0);
      instpos := InstStart(chipset);
    }

    /** `nv50_chan_iobj_new`, with the size arithmetic unbounded: an object
        of the rounded size starts at the old `instpos`, which moves past
        it; an object that does not fit gives 0 and changes nothing. Since
        `instpos` only grows, the objects handed out never overlap. */
    method IobjNew(size: u32) returns (res: nat)
      requires Valid()
      modifies this
      ensures Valid()
      ensures var r := Round16(size);
        if old(instpos) + r > boSize then res == 0 && instpos == old(instpos)
        else res == old(instpos) && instpos == res + r
      ensures res != 0 ==> res % 16 == 0 && res + size <= instpos <= boSize
    {
      var r := Round16(size);
      if instpos + r > boSize {
        return 0;
      }
      MultipleSum(instpos, r, 16);
      res := instpos;
      instpos := instpos + r;
    }

    /** `nv50_chan_dmaobj_new`: a 0x18-byte instance object filled with
        the six words of the DMA object; 0 when the bo has no room, in
        which case nothing is written. */
    method DmaobjNew(ty: u32, start: u64, size: u64) returns (res: nat)
      requires Valid()
      modifies this, bo
      ensures Valid()
      ensures old(instpos) + DMAOBJ_BYTES > boSize ==>
        res == 0 && instpos == old(instpos) && bo[..] == old(bo[..])
      ensures old(instpos) + DMAOBJ_BYTES <= boSize ==>
        res == old(instpos) && instpos == res + DMAOBJ_BYTES && res % 16 == 0 &&
        bo[..] == old(bo[..])[..res / 4] + DmaWords(ty, start, size) + old(bo[..])[res / 4 + 6..]
    {
      res := IobjNew(0x18);
      if res == 0 {
        return;
      }
      var w: seq<u32> := DmaWords(ty, start, size);
      var i := res / 4;
      ghost var before: seq<u32> := bo[..];
      bo[i] := w[0];
      bo[i + 1] := w[1];
      bo[i + 2] := w[2];
      bo[i + 3] := w[3];
      bo[i + 4] := w[4];
      bo[i + 5] := w[5];
      assert bo[..] == before[i := w[0]][i + 1 := w[1]][i + 2 := w[2]][i + 3 := w[3]][i + 4 := w[4]][i + 5 := w[5]];
      Splice(before, i, w);
    }
  }
}
