/** The legacy first-fit heap: a circular list of blocks that tile one
    address range, each free or owned by a file, closed by a sentinel block
    whose owner is -1. The list is kept here as the sequence of its blocks
    in list order; the sentinel sits before the first and after the last
    block, and since its owner is never NULL no merge ever passes it. */
module NouveauMem {
  import opened Util

  const ENOMEM: int := 12

  /** `file_priv` of a block: NULL (free) or an owning file. */
  datatype Owner = Free | File(f: int)

  datatype Block = Block(start: nat, size: nat, owner: Owner)

  function End(b: Block): nat
  {
    b.start + b.size
  }

  /** The blocks follow each other without gap or overlap, from lo to hi. */
  ghost predicate Spans(bs: seq<Block>, lo: nat, hi: nat)
  {
    |bs| > 0 && bs[0].start == lo && End(bs[|bs| - 1]) == hi &&
    forall i :: 0 <= i < |bs| - 1 ==> End(bs[i]) == bs[i + 1].start
  }

  /** No two neighbouring blocks are both free. */
  ghost predicate Coalesced(bs: seq<Block>)
  {
    forall i :: 0 <= i < |bs| - 1 ==> !(bs[i].owner.Free? && bs[i + 1].owner.Free?)
  }

  /** The owned blocks, in list order. */
  function Owned(bs: seq<Block>): seq<Block>
  {
    if bs == [] then []
    else (if bs[0].owner.Free? then [] else [bs[0]]) + Owned(bs[1..])
  }

  lemma {:induction false} OwnedConcat(a: seq<Block>, b: seq<Block>)
    ensures Owned(a + b) == Owned(a) + Owned(b)
  {
    if a != [] {
      OwnedConcat(a[1..], b);
      assert a + b == [a[0]] + (a[1..] + b);
      OwnedCons(a[0], a[1..] + b);
      OwnedCons(a[0], a[1..]);
      assert a == [a[0]] + a[1..];
    } else {
      assert a + b == b;
    }
  }

  /** Where the blocks of a splice come from. */
  lemma SpliceIndex(bs: seq<Block>, i: nat, j: nat, mid: seq<Block>)
    requires i <= j <= |bs|
    ensures var r := bs[..i] + mid + bs[j..];
      |r| == |bs| - (j - i) + |mid| &&
      (forall k :: 0 <= k < i ==> r[k] == bs[k]) &&
      (forall k :: 0 <= k < |mid| ==> r[i + k] == mid[k]) &&
      (forall k :: j <= k < |bs| ==> r[k - j + i + |mid|] == bs[k])
  {
  }

  /** Replacing blocks i..j-1 by mid keeps the tiling when mid tiles the
      same stretch. */
  lemma SpliceSpans(bs: seq<Block>, lo: nat, hi: nat, i: nat, j: nat, mid: seq<Block>)
    requires Spans(bs, lo, hi) && i < j <= |bs|
    requires Spans(mid, bs[i].start, End(bs[j - 1]))
    ensures Spans(bs[..i] + mid + bs[j..], lo, hi)
  {
    var r := bs[..i] + mid + bs[j..];
    SpliceIndex(bs, i, j, mid);
    forall k | 0 <= k < |r| - 1
      ensures End(r[k]) == r[k + 1].start
    {
      if k < i - 1 {
      } else if k == i - 1 {
      } else if k < i + |mid| - 1 {
        assert r[k] == mid[k - i] && r[k + 1] == mid[k - i + 1];
      } else if k == i + |mid| - 1 {
        assert r[k] == mid[|mid| - 1] && r[k + 1] == bs[j];
      } else {
        var q := k - i - |mid| + j;
        assert r[k] == bs[q] && r[k + 1] == bs[q + 1];
      }
    }
  }

  /** ... and keeps the list coalesced when mid is and its free ends do not
      meet free neighbours. */
  lemma SpliceCoalesced(bs: seq<Block>, i: nat, j: nat, mid: seq<Block>)
    requires Coalesced(bs) && Coalesced(mid) && i < j <= |bs| && |mid| > 0
    requires i > 0 && mid[0].owner.Free? ==> !bs[i - 1].owner.Free?
    requires j < |bs| && mid[|mid| - 1].owner.Free? ==> !bs[j].owner.Free?
    ensures Coalesced(bs[..i] + mid + bs[j..])
  {
    var r := bs[..i] + mid + bs[j..];
    SpliceIndex(bs, i, j, mid);
    forall k | 0 <= k < |r| - 1
      ensures !(r[k].owner.Free? && r[k + 1].owner.Free?)
    {
      if k < i - 1 {
      } else if k == i - 1 {
        assert r[k + 1] == mid[0];
      } else if k < i + |mid| - 1 {
        assert r[k] == mid[k - i] && r[k + 1] == mid[k - i + 1];
      } else if k == i + |mid| - 1 {
        assert r[k] == mid[|mid| - 1] && r[k + 1] == bs[j];
      } else {
        var q := k - i - |mid| + j;
        assert r[k] == bs[q] && r[k + 1] == bs[q + 1];
      }
    }
  }

  /** Blocks p and p+1 merged into one, as the merges of
      `nouveau_mem_free_block` and `nouveau_mem_release` do: p grows by the
      size of its successor, which leaves the list. */
  function MergeNext(bs: seq<Block>, p: nat): (r: seq<Block>)
    requires p + 1 < |bs|
    ensures |r| == |bs| - 1
  {
    bs[..p] + [Block(bs[p].start, bs[p].size + bs[p + 1].size, bs[p].owner)] + bs[p + 2..]
  }

  /** Merging two free neighbours keeps the tiling and the owned blocks. */
  lemma MergeNextOk(bs: seq<Block>, lo: nat, hi: nat, p: nat)
    requires Spans(bs, lo, hi) && p + 1 < |bs| && bs[p].owner.Free? && bs[p + 1].owner.Free?
    ensures Spans(MergeNext(bs, p), lo, hi)
    ensures Owned(MergeNext(bs, p)) == Owned(bs)
  {
    var m := Block(bs[p].start, bs[p].size + bs[p + 1].size, bs[p].owner);
    SpliceSpans(bs, lo, hi, p, p + 2, [m]);
    MergeKeepsOwned(bs, p);
  }

  lemma MergeKeepsOwned(bs: seq<Block>, p: nat)
    requires p + 1 < |bs| && bs[p].owner.Free? && bs[p + 1].owner.Free?
    ensures Owned(MergeNext(bs, p)) == Owned(bs)
  {
    MergeNextOwned(bs[..p], bs[p], bs[p + 1], bs[p + 2..]);
    assert bs == bs[..p] + [bs[p], bs[p + 1]] + bs[p + 2..];
  }

  lemma MergeNextOwned(left: seq<Block>, x: Block, y: Block, right: seq<Block>)
    requires x.owner.Free? && y.owner.Free?
    ensures var m := Block(x.start, x.size + y.size, x.owner);
      Owned(left + [m] + right) == Owned(left + [x, y] + right)
  {
    var m := Block(x.start, x.size + y.size, x.owner);
    OwnedConcat(left + [m], right);
    OwnedConcat(left, [m]);
    OwnedConcat(left + [x, y], right);
    OwnedConcat(left, [x, y]);
    assert Owned([m]) == [];
    assert [x, y][1..] == [y];
    assert Owned([y]) == [];
    assert Owned([x, y]) == [];
  }

  /** The pieces `split_block` cuts block b into, and which of them is the
      caller's: a free head before start if start is past the block's
      start, the caller's piece, and a free tail if the piece is shorter
      than what is left. When a piece cannot be allocated the cutting stops
      and the caller gets the rest of the block as it is. */
  function Carve(b: Block, start: nat, size: nat, owner: Owner, headFails: bool, tailFails: bool)
    : (out: (seq<Block>, nat))
    requires b.start <= start && start + size <= End(b)
    ensures out.1 < |out.0| && out.0[out.1].owner == owner
  {
    if start > b.start && headFails then ([b.(owner := owner)], 0)
    else
      var head := if start > b.start then [Block(b.start, start - b.start, b.owner)] else [];
      var rest := Block(start, End(b) - start, if start > b.start then Free else b.owner);
      if size < rest.size && !tailFails then
        (head + [Block(start, size, owner), Block(start + size, rest.size - size, Free)], |head|)
      else
        (head + [rest.(owner := owner)], |head|)
  }

  /** The pieces tile the block; the caller's piece has the requested start
      unless the head could not be cut, and also the requested size unless
      a cut failed; the other pieces of a free block are free. */
  lemma CarveOk(b: Block, start: nat, size: nat, owner: Owner, headFails: bool, tailFails: bool)
    requires b.start <= start && start + size <= End(b)
    ensures var (pieces, at) := Carve(b, start, size, owner, headFails, tailFails);
      Spans(pieces, b.start, End(b)) &&
      (start == b.start || !headFails ==> pieces[at].start == start) &&
      (!headFails && !tailFails ==> pieces[at].size == size) &&
      (b.owner.Free? ==> forall k :: 0 <= k < |pieces| && k != at ==> pieces[k].owner.Free?)
  {
  }

  /** What the owned blocks become when the caller's piece of a free block
      is handed out, and that the list stays coalesced around it. */
  lemma CarveOwned(b: Block, start: nat, size: nat, owner: Owner, headFails: bool, tailFails: bool)
    requires b.start <= start && start + size <= End(b) && b.owner.Free? && !owner.Free?
    ensures var (pieces, at) := Carve(b, start, size, owner, headFails, tailFails);
      Owned(pieces) == [pieces[at]] && Coalesced(pieces)
  {
    var (pieces, at) := Carve(b, start, size, owner, headFails, tailFails);
    if |pieces| == 3 {
      assert pieces == [pieces[0]] + [pieces[1]] + [pieces[2]];
      OwnedConcat([pieces[0]] + [pieces[1]], [pieces[2]]);
      OwnedConcat([pieces[0]], [pieces[1]]);
    } else if |pieces| == 2 {
      assert pieces == [pieces[0]] + [pieces[1]];
      OwnedConcat([pieces[0]], [pieces[1]]);
    }
  }

  /** `start + size <= end` of the head search, unbounded: the block is
      free and the piece aligned up to m fits in it. */
  predicate HeadFits(b: Block, size: nat, m: nat)
    requires m > 0
  {
    b.owner.Free? && AlignDown(b.start + m - 1, m) + size <= End(b)
  }

  /** The tail search, unbounded: the block is free, at least size long,
      and the piece that ends at its end, aligned down to m, starts inside
      it. */
  predicate TailFits(b: Block, size: nat, m: nat)
    requires m > 0
  {
    b.owner.Free? && size <= End(b) && AlignDown(End(b) - size, m) >= b.start
  }

  /** The first block from k on that the head search accepts. */
  function FirstHead(bs: seq<Block>, size: nat, m: nat, k: nat): (r: Option<nat>)
    requires m > 0 && k <= |bs|
    ensures r.Some? ==> k <= r.value < |bs| && HeadFits(bs[r.value], size, m)
    decreases |bs| - k
  {
    if k == |bs| then None
    else if HeadFits(bs[k], size, m) then Some(k)
    else FirstHead(bs, size, m, k + 1)
  }

  /** The last block below k that the tail search accepts. */
  function LastTail(bs: seq<Block>, size: nat, m: nat, k: nat): (r: Option<nat>)
    requires m > 0 && k <= |bs|
    ensures r.Some? ==> r.value < k && TailFits(bs[r.value], size, m)
  {
    if k == 0 then None
    else if TailFits(bs[k - 1], size, m) then Some(k - 1)
    else LastTail(bs, size, m, k - 1)
  }

  /** The head search takes the first block that fits; it finds none only
      when no block fits. */
  lemma {:induction false} FirstHeadSpec(bs: seq<Block>, size: nat, m: nat, k: nat)
    requires m > 0 && k <= |bs|
    ensures var r := FirstHead(bs, size, m, k);
      r.Some? ==> forall i :: k <= i < r.value ==> !HeadFits(bs[i], size, m)
    ensures FirstHead(bs, size, m, k).None? <==> forall i :: k <= i < |bs| ==> !HeadFits(bs[i], size, m)
    decreases |bs| - k
  {
    if k < |bs| && !HeadFits(bs[k], size, m) {
      FirstHeadSpec(bs, size, m, k + 1);
    }
  }

  /** The tail search takes the last block that fits; it finds none only
      when no block fits. */
  lemma {:induction false} LastTailSpec(bs: seq<Block>, size: nat, m: nat, k: nat)
    requires m > 0 && k <= |bs|
    ensures var r := LastTail(bs, size, m, k);
      r.Some? ==> forall i :: r.value < i < k ==> !TailFits(bs[i], size, m)
    ensures LastTail(bs, size, m, k).None? <==> forall i :: 0 <= i < k ==> !TailFits(bs[i], size, m)
  {
    if k > 0 && !TailFits(bs[k - 1], size, m) {
      LastTailSpec(bs, size, m, k - 1);
    }
  }

  /** The start the head search picks, `(p->start + mask) & ~mask`:
      aligned to m, at or after the block's start. */
  function HeadStart(b: Block, m: nat): (s: nat)
    requires m > 0
    ensures s % m == 0 && b.start <= s < b.start + m
  {
    AlignDown(b.start + m - 1, m)
  }

  /** The start the tail search picks, `((p->start + p->size) - size) &
      ~mask`: aligned to m, and the piece ends at most m - 1 before the
      block's end. */
  function TailStart(b: Block, size: nat, m: nat): (s: nat)
    requires m > 0 && size <= End(b)
    ensures s % m == 0 && s + size <= End(b) < s + size + m
  {
    AlignDown(End(b) - size, m)
  }

  /** The tail fit test as written, in uint64_t: `end - size` wraps when
      size is larger than the block's end, and so does `start + size`. */
  predicate TailFitsAsWritten(start: u64, size: u64, bsize: u64, mask: u64)
  {
    var end := Add64(start, bsize);
    var s := AlignDown(Sub64(end, size), mask + 1);
    s >= start && Add64(s, size) <= end
  }

  /** The head fit test as written, in uint64_t: `start + size` wraps for a
      size near 2^64. */
  predicate HeadFitsAsWritten(start: u64, size: u64, bsize: u64, mask: u64)
  {
    var s := AlignDown(Add64(start, mask), mask + 1) % TWO_64;
    Add64(s, size) <= Add64(start, bsize)
  }

  /** A free block of 0x1000 bytes at 0 passes the tail test as written
      for a request of 0x2000 bytes (the piece would start at
      2^64 - 0x1000), which the unbounded test refuses. */
  lemma TailFitsWrap()
    ensures TailFitsAsWritten(0, 0x2000, 0x1000, 0)
    ensures !TailFits(Block(0, 0x1000, Free), 0x2000, 1)
  {
    var s := Sub64(0x1000, 0x2000);
    assert s == TWO_64 - 0x1000;
    assert AlignDown(s, 1) == s;
    assert Add64(s, 0x2000) == 0x1000;
  }

  /** A free block of 0x1000 bytes at 0x1000 passes the head test as
      written for a request of 2^64 - 0x1000 bytes, which the unbounded
      test refuses. */
  lemma HeadFitsWrap()
    ensures HeadFitsAsWritten(0x1000, TWO_64 - 0x1000, 0x1000, 0)
    ensures !HeadFits(Block(0x1000, 0x1000, Free), TWO_64 - 0x1000, 1)
  {
    assert AlignDown(0x1000, 1) == 0x1000;
    assert Add64(0x1000, TWO_64 - 0x1000) == 0;
  }

  /** Whatever a fit test accepts, the piece it picks lies inside the
      block: the unbounded tests are the ones `split_block` needs. */
  lemma FitsInside(b: Block, size: nat, m: nat)
    requires m > 0
    ensures HeadFits(b, size, m) ==> b.start <= HeadStart(b, m) && HeadStart(b, m) + size <= End(b)
    ensures TailFits(b, size, m) ==> b.start <= TailStart(b, size, m) && TailStart(b, size, m) + size <= End(b)
  {
  }

  class Heap {
    /** Whether `*heap` points to a heap (false: NULL). */
    var live: bool
    /** The blocks between the sentinel's next and its prev. */
    var blocks: seq<Block>
    /** The range the heap was set up with. */
    ghost var lo: nat
    ghost var hi: nat

    ghost predicate Valid()
      reads this
    {
      (live ==> Spans(blocks, lo, hi) && Coalesced(blocks)) && (!live ==> blocks == [])
    }

    /** A heap pointer that is still NULL. */
    constructor ()
      ensures Valid() && !live
    {
      live := false;
      blocks := [];
    }

    /** `nouveau_mem_init_heap`: a heap of one free block [start,
        start + size) between the sentinel's two links; -ENOMEM, and no
        change, when a block cannot be allocated. */
    method InitHeap(start: nat, size: nat, allocFails: bool) returns (r: int)
      modifies this
      ensures allocFails ==> r == -ENOMEM && unchanged(this)
      ensures !allocFails ==> r == 0 && live && blocks == [Block(start, size, Free)] && lo == start && hi == start + size
      ensures old(Valid()) ==> Valid()
    {
      if allocFails {
        return -ENOMEM;
      }
      live := true;
      blocks := [Block(start, size, Free)];
      lo, hi := start, start + size;
      r := 0;
    }

    /** The forward walk of `nouveau_mem_alloc_block`. */
    method FindHead(size: nat, m: nat) returns (r: Option<nat>)
      requires m > 0
      ensures r == FirstHead(blocks, size, m, 0)
    {
      var k := 0;
      while k < |blocks|
        invariant 0 <= k <= |blocks|
        invariant FirstHead(blocks, size, m, 0) == FirstHead(blocks, size, m, k)
      {
        if HeadFits(blocks[k], size, m) {
          return Some(k);
        }
        k := k + 1;
      }
      r := None;
    }

    /** The backward walk of `nouveau_mem_alloc_block`. */
    method FindTail(size: nat, m: nat) returns (r: Option<nat>)
      requires m > 0
      ensures r == LastTail(blocks, size, m, |blocks|)
    {
      var k := |blocks|;
      while k > 0
        invariant 0 <= k <= |blocks|
        invariant LastTail(blocks, size, m, |blocks|) == LastTail(blocks, size, m, k)
      {
        if TailFits(blocks[k - 1], size, m) {
          return Some(k - 1);
        }
        k := k - 1;
      }
      r := None;
    }

    /** `split_block`: block i is cut as `Carve` says and the caller's
        piece is given to owner; the result is that piece's position. */
    method SplitBlock(i: nat, start: nat, size: nat, owner: Owner, headFails: bool, tailFails: bool)
      returns (j: nat)
      requires live && Valid() && i < |blocks| && blocks[i].owner.Free? && !owner.Free?
      requires blocks[i].start <= start && start + size <= End(blocks[i])
      modifies this
      ensures live && Valid()
      ensures var (pieces, at) := Carve(old(blocks)[i], start, size, owner, headFails, tailFails);
        blocks == old(blocks)[..i] + pieces + old(blocks)[i + 1..] && j == i + at
      ensures j < |blocks| && blocks[j].owner == owner
      ensures Owned(blocks) == Owned(old(blocks)[..i]) + [blocks[j]] + Owned(old(blocks)[i + 1..])
    {
      ghost var bs := blocks;
      var b := blocks[i];
      var (pieces, at) := Carve(b, start, size, owner, headFails, tailFails);
      var p := b;
      var out: seq<Block> := [];
      if start > p.start {
        if headFails {
          blocks := blocks[i := p.(owner := owner)];
          assert blocks == bs[..i] + pieces + bs[i + 1..];
          CarveKeepsOk(bs, lo, hi, i, start, size, owner, headFails, tailFails);
          return i;
        }
        out := [Block(p.start, start - p.start, p.owner)];
        p := Block(start, p.size - (start - p.start), Free);
      }
      if size < p.size && !tailFails {
        out := out + [Block(start, size, owner), Block(start + size, p.size - size, Free)];
      } else {
        out := out + [p.(owner := owner)];
      }
      assert out == pieces;
      blocks := blocks[..i] + out + blocks[i + 1..];
      j := i + at;
      CarveKeepsOk(bs, lo, hi, i, start, size, owner, headFails, tailFails);
    }

    /** `nouveau_mem_alloc_block` with the fit tests in unbounded
        arithmetic: NULL for a NULL heap; otherwise the first free block (or
        with tail set, the last) that can hold size bytes at an alignment
        of 2^align2 is split around them, and NULL when none can. */
    method AllocBlock(size: nat, align2: nat, owner: Owner, tail: bool, headFails: bool, tailFails: bool)
      returns (r: Option<nat>)
      requires Valid() && align2 < 31 && !owner.Free?
      modifies this
      ensures Valid() && live == old(live)
      ensures !old(live) ==> r.None? && unchanged(this)
      ensures r.None? ==> blocks == old(blocks)
      ensures old(live) && !tail ==> var f := FirstHead(old(blocks), size, Pow2(align2), 0);
        (f.None? <==> r.None?) &&
        (f.Some? ==> var b := old(blocks)[f.value];
          blocks == old(blocks)[..f.value] + Carve(b, HeadStart(b, Pow2(align2)), size, owner, headFails, tailFails).0 +
            old(blocks)[f.value + 1..])
      ensures old(live) && tail ==> var f := LastTail(old(blocks), size, Pow2(align2), |old(blocks)|);
        (f.None? <==> r.None?) &&
        (f.Some? ==> var b := old(blocks)[f.value];
          blocks == old(blocks)[..f.value] + Carve(b, TailStart(b, size, Pow2(align2)), size, owner, headFails, tailFails).0 +
            old(blocks)[f.value + 1..])
      ensures r.Some? ==> (r.value < |blocks| && blocks[r.value].owner == owner &&
        (!headFails && !tailFails ==> blocks[r.value].size == size && blocks[r.value].start % Pow2(align2) == 0))
    {
      if !live {
        return None;
      }
      var m := Pow2(align2);
      var f;
      if tail {
        f := FindTail(size, m);
      } else {
        f := FindHead(size, m);
      }
      if f.None? {
        return None;
      }
      var b := blocks[f.value];
      FitsInside(b, size, m);
      var start := if tail then TailStart(b, size, m) else HeadStart(b, m);
      CarveOk(b, start, size, owner, headFails, tailFails);
      var j := SplitBlock(f.value, start, size, owner, headFails, tailFails);
      r := Some(j);
    }

    /** `nouveau_mem_free_block`: block i becomes free and is merged with
        its successor if that one is free, then with its predecessor if
        that one is free; the sentinel at either end is never free. The
        heap stays tiled and coalesced, and the owned blocks are those
        before less block i. */
    method FreeBlock(i: nat)
      requires live && Valid() && i < |blocks|
      modifies this
      ensures live && Valid()
      ensures blocks == Freed(old(blocks), i)
      ensures Owned(blocks) == Owned(old(blocks)[..i]) + Owned(old(blocks)[i + 1..])
    {
      ghost var bs := blocks;
      blocks := blocks[i := blocks[i].(owner := Free)];
      var p := i;
      if p + 1 < |blocks| && blocks[p + 1].owner.Free? {
        blocks := MergeNext(blocks, p);
      }
      if p > 0 && blocks[p - 1].owner.Free? {
        blocks := MergeNext(blocks, p - 1);
      }
      FreeSteps(bs, i);
      FreedOk(bs, lo, hi, i);
    }

    /** `nouveau_mem_release`: every block owned by the file becomes free,
        then each run of free blocks is merged into one, stopping at the
        sentinel. Afterwards the file owns nothing, the other owned blocks
        are as they were, and no two free blocks are neighbours. */
    method Release(file: int)
      requires Valid()
      modifies this
      ensures Valid() && live == old(live) && lo == old(lo) && hi == old(hi)
      ensures !old(live) ==> unchanged(this)
      ensures old(live) ==> blocks == Coalesce(Clear(old(blocks), file))
      ensures Owned(blocks) == Without(Owned(old(blocks)), file)
      ensures forall k :: 0 <= k < |blocks| ==> blocks[k].owner != File(file)
    {
      if !live {
        return;
      }
      ClearFile(file);
      CoalesceAll(file);
    }

    /** The first loop of `nouveau_mem_release`. */
    method ClearFile(file: int)
      requires live && Valid()
      modifies this
      ensures live && lo == old(lo) && hi == old(hi)
      ensures Spans(blocks, lo, hi) && blocks == Clear(old(blocks), file)
      ensures Owned(blocks) == Without(Owned(old(blocks)), file)
      ensures forall k :: 0 <= k < |blocks| ==> blocks[k].owner != File(file)
    {
      var bs := blocks;
      var k := 0;
      while k < |bs|
        invariant 0 <= k <= |bs| == |blocks|
        invariant forall m :: 0 <= m < |bs| ==> bs[m] == if m < k then ClearOne(blocks[m], file) else blocks[m]
      {
        if bs[k].owner == File(file) {
          bs := bs[k := bs[k].(owner := Free)];
        }
        k := k + 1;
      }
      ClearIndex(blocks, file);
      ClearOk(blocks, lo, hi, file);
      blocks := bs;
    }

    /** The second loop of `nouveau_mem_release`: from each block on, while
        it and its successor are free and the successor is not the
        sentinel, the successor is merged into it. */
    method CoalesceAll(file: int)
      requires live && Spans(blocks, lo, hi)
      requires forall k :: 0 <= k < |blocks| ==> blocks[k].owner != File(file)
      modifies this
      ensures live && Valid() && lo == old(lo) && hi == old(hi) && Owned(blocks) == Owned(old(blocks))
      ensures blocks == Coalesce(old(blocks))
      ensures forall k :: 0 <= k < |blocks| ==> blocks[k].owner != File(file)
    {
      CoalesceOk(blocks, lo, hi);
      CoalesceNoFile(blocks, file);
      blocks := CoalesceRuns(blocks);
    }

    /** The loop of the coalescing over the list: from each block on, its
        run of free successors is merged into it. */
    static method CoalesceRuns(bs0: seq<Block>) returns (bs: seq<Block>)
      ensures bs == Coalesce(bs0)
    {
      bs := bs0;
      var p := 0;
      assert bs[..0] + bs[0..] == bs;
      while p < |bs|
        invariant 0 <= p <= |bs|
        invariant bs[..p] + Coalesce(bs[p..]) == Coalesce(bs0)
        decreases |bs| - p
      {
        bs := MergeRun(bs, p);
        CoalesceSkip(bs, p);
        p := p + 1;
      }
      assert bs[..p] == bs && bs[p..] == [];
    }

    /** The inner loop of the coalescing: while block p and its successor
        are free, the successor is merged into p. */
    static method MergeRun(bs0: seq<Block>, p: nat) returns (bs: seq<Block>)
      requires p < |bs0|
      ensures p < |bs| <= |bs0|
      ensures !(bs[p].owner.Free? && p + 1 < |bs| && bs[p + 1].owner.Free?)
      ensures bs[..p] + Coalesce(bs[p..]) == bs0[..p] + Coalesce(bs0[p..])
    {
      bs := bs0;
      while bs[p].owner.Free? && p + 1 < |bs| && bs[p + 1].owner.Free?
        invariant p < |bs| <= |bs0|
        invariant bs[..p] + Coalesce(bs[p..]) == bs0[..p] + Coalesce(bs0[p..])
        decreases |bs|
      {
        CoalesceMerge(bs, p);
        bs := MergeNext(bs, p);
      }
    }

    /** `nouveau_mem_takedown`: every block is freed and the heap pointer
        becomes NULL; a NULL heap is left alone. */
    method Takedown()
      requires Valid()
      modifies this
      ensures !live && blocks == []
      ensures !old(live) ==> unchanged(this)
      ensures Valid()
    {
      if !live {
        return;
      }
      blocks := [];
      live := false;
    }
  }

  /** The coalescing loop of `nouveau_mem_release` on a whole list: each
      free block absorbs the free blocks that follow it. */
  function Coalesce(bs: seq<Block>): (r: seq<Block>)
    ensures |r| <= |bs|
    decreases |bs|
  {
    if |bs| <= 1 then bs
    else if bs[0].owner.Free? && bs[1].owner.Free? then Coalesce(MergeNext(bs, 0))
    else [bs[0]] + Coalesce(bs[1..])
  }

  /** A coalesced list starts where the list starts, with the same owner. */
  lemma {:induction false} CoalesceHead(bs: seq<Block>)
    requires bs != []
    ensures Coalesce(bs) != [] && Coalesce(bs)[0].start == bs[0].start && Coalesce(bs)[0].owner == bs[0].owner
    decreases |bs|
  {
    if |bs| > 1 && bs[0].owner.Free? && bs[1].owner.Free? {
      CoalesceHead(MergeNext(bs, 0));
    }
  }

  /** The tail of a tiling spans from its second block on. */
  lemma SpansTail(bs: seq<Block>, lo: nat, hi: nat)
    requires Spans(bs, lo, hi) && |bs| > 1
    ensures Spans(bs[1..], bs[1].start, hi)
  {
  }

  /** Coalescing keeps the tiling and the owned blocks, and leaves no two
      free neighbours. */
  lemma {:induction false} CoalesceOk(bs: seq<Block>, lo: nat, hi: nat)
    requires Spans(bs, lo, hi)
    ensures Spans(Coalesce(bs), lo, hi) && Coalesced(Coalesce(bs)) && Owned(Coalesce(bs)) == Owned(bs)
    decreases |bs|
  {
    if |bs| <= 1 {
    } else if bs[0].owner.Free? && bs[1].owner.Free? {
      MergeNextOk(bs, lo, hi, 0);
      CoalesceOk(MergeNext(bs, 0), lo, hi);
    } else {
      var r := Coalesce(bs[1..]);
      SpansTail(bs, lo, hi);
      CoalesceOk(bs[1..], bs[1].start, hi);
      CoalesceHead(bs[1..]);
      ConsOk(bs[0], r, hi);
      assert Coalesce(bs) == [bs[0]] + r;
      OwnedCons(bs[0], r);
      OwnedCons(bs[0], bs[1..]);
      assert bs == [bs[0]] + bs[1..];
    }
  }

  /** A block put in front of a coalesced tiling that starts at its end,
      not both free with the first block, extends the tiling. */
  lemma ConsOk(b: Block, r: seq<Block>, hi: nat)
    requires Spans(r, End(b), hi) && Coalesced(r) && !(b.owner.Free? && r[0].owner.Free?)
    ensures Spans([b] + r, b.start, hi) && Coalesced([b] + r)
  {
    var c := [b] + r;
    forall i | 0 <= i < |c| - 1
      ensures End(c[i]) == c[i + 1].start && !(c[i].owner.Free? && c[i + 1].owner.Free?)
    {
      if i > 0 {
        assert c[i] == r[i - 1] && c[i + 1] == r[i];
      }
    }
  }

  /** Coalescing gives no block to a file that had none. */
  lemma {:induction false} CoalesceNoFile(bs: seq<Block>, file: int)
    requires forall k :: 0 <= k < |bs| ==> bs[k].owner != File(file)
    ensures forall k :: 0 <= k < |Coalesce(bs)| ==> Coalesce(bs)[k].owner != File(file)
    decreases |bs|
  {
    if |bs| <= 1 {
    } else if bs[0].owner.Free? && bs[1].owner.Free? {
      var m := MergeNext(bs, 0);
      forall k | 0 <= k < |m| ensures m[k].owner != File(file) {
        if k > 0 {
          assert m[k] == bs[k + 1];
        }
      }
      CoalesceNoFile(m, file);
    } else {
      CoalesceNoFile(bs[1..], file);
      var c := [bs[0]] + Coalesce(bs[1..]);
      assert Coalesce(bs) == c;
      forall k | 0 <= k < |c| ensures c[k].owner != File(file) {
        if k > 0 {
          assert c[k] == Coalesce(bs[1..])[k - 1];
        }
      }
    }
  }

  /** A merge at p leaves the blocks before p alone and coalesces to the
      same list from p on. */
  lemma CoalesceMerge(bs: seq<Block>, p: nat)
    requires p + 1 < |bs| && bs[p].owner.Free? && bs[p + 1].owner.Free?
    ensures MergeNext(bs, p)[..p] == bs[..p]
    ensures Coalesce(MergeNext(bs, p)[p..]) == Coalesce(bs[p..])
  {
    assert MergeNext(bs, p)[p..] == MergeNext(bs[p..], 0);
  }

  /** A block that is not followed by a free pair stays as it is. */
  lemma CoalesceSkip(bs: seq<Block>, p: nat)
    requires p < |bs| && !(bs[p].owner.Free? && p + 1 < |bs| && bs[p + 1].owner.Free?)
    ensures bs[..p + 1] + Coalesce(bs[p + 1..]) == bs[..p] + Coalesce(bs[p..])
  {
    assert bs[p..][1..] == bs[p + 1..];
    assert bs[..p + 1] == bs[..p] + [bs[p]];
  }

  /** A block of the file made free. */
  function ClearOne(b: Block, file: int): Block
  {
    if b.owner == File(file) then b.(owner := Free) else b
  }

  /** The first loop of `nouveau_mem_release`, on the whole list. */
  function Clear(bs: seq<Block>, file: int): (r: seq<Block>)
    ensures |r| == |bs|
  {
    if bs == [] then [] else [ClearOne(bs[0], file)] + Clear(bs[1..], file)
  }

  /** The owned blocks without those of the file. */
  function Without(bs: seq<Block>, file: int): (r: seq<Block>)
    ensures forall b :: b in r ==> b in bs && b.owner != File(file)
  {
    if bs == [] then []
    else (if bs[0].owner == File(file) then [] else [bs[0]]) + Without(bs[1..], file)
  }

  lemma {:induction false} ClearIndex(bs: seq<Block>, file: int)
    ensures forall m :: 0 <= m < |bs| ==> Clear(bs, file)[m] == ClearOne(bs[m], file)
  {
    if bs != [] {
      ClearIndex(bs[1..], file);
    }
  }

  /** Clearing the file's blocks keeps the tiling and removes exactly the
      file's blocks from the owned ones. */
  lemma {:induction false} ClearOk(bs: seq<Block>, lo: nat, hi: nat, file: int)
    requires Spans(bs, lo, hi)
    ensures Spans(Clear(bs, file), lo, hi)
    ensures Owned(Clear(bs, file)) == Without(Owned(bs), file)
    ensures forall m :: 0 <= m < |bs| ==> Clear(bs, file)[m].owner != File(file)
  {
    var c := Clear(bs, file);
    ClearIndex(bs, file);
    forall i | 0 <= i < |c| - 1
      ensures End(c[i]) == c[i + 1].start
    {
      assert c[i] == ClearOne(bs[i], file) && c[i + 1] == ClearOne(bs[i + 1], file);
    }
    assert c[0] == ClearOne(bs[0], file) && c[|c| - 1] == ClearOne(bs[|bs| - 1], file);
    ClearOwned(bs, file);
  }

  lemma {:induction false} ClearOwned(bs: seq<Block>, file: int)
    ensures Owned(Clear(bs, file)) == Without(Owned(bs), file)
  {
    if bs != [] {
      ClearOwned(bs[1..], file);
      var c := ClearOne(bs[0], file);
      var rest := Clear(bs[1..], file);
      assert Clear(bs, file) == [c] + rest;
      OwnedCons(c, rest);
      OwnedCons(bs[0], bs[1..]);
      assert bs == [bs[0]] + bs[1..];
      if !bs[0].owner.Free? {
        WithoutCons(bs[0], Owned(bs[1..]), file);
        assert Owned(bs) == [bs[0]] + Owned(bs[1..]);
        if bs[0].owner == File(file) {
          assert Owned(Clear(bs, file)) == Owned(rest);
        } else {
          assert c == bs[0];
          assert Owned(Clear(bs, file)) == [c] + Owned(rest);
        }
      } else {
        assert Owned(bs) == Owned(bs[1..]);
        assert Owned(Clear(bs, file)) == Owned(rest);
      }
    }
  }

  lemma OwnedCons(b: Block, bs: seq<Block>)
    ensures Owned([b] + bs) == (if b.owner.Free? then [] else [b]) + Owned(bs)
  {
    assert ([b] + bs)[1..] == bs;
  }

  lemma WithoutCons(b: Block, bs: seq<Block>, file: int)
    ensures Without([b] + bs, file) == (if b.owner == File(file) then [] else [b]) + Without(bs, file)
  {
    assert ([b] + bs)[1..] == bs;
  }

  /** The list after `nouveau_mem_free_block` on block i: blocks a..c-1
      (block i and whichever neighbours are free) become one free block,
      its size the sum of theirs. */
  function Freed(bs: seq<Block>, i: nat): (r: seq<Block>)
    requires i < |bs|
  {
    var a := if i > 0 && bs[i - 1].owner.Free? then i - 1 else i;
    var c := if i + 1 < |bs| && bs[i + 1].owner.Free? then i + 2 else i + 1;
    var size := bs[a].size + (if a + 1 < c then bs[a + 1].size else 0) + (if a + 2 < c then bs[a + 2].size else 0);
    bs[..a] + [Block(bs[a].start, size, Free)] + bs[c..]
  }

  /** The steps of `nouveau_mem_free_block` give `Freed`. */
  lemma FreeSteps(bs: seq<Block>, i: nat)
    requires i < |bs|
    ensures var b1 := bs[i := bs[i].(owner := Free)];
      var b2 := if i + 1 < |b1| && b1[i + 1].owner.Free? then MergeNext(b1, i) else b1;
      var b3 := if i > 0 && b2[i - 1].owner.Free? then MergeNext(b2, i - 1) else b2;
      b3 == Freed(bs, i)
  {
    var c := if i + 1 < |bs| && bs[i + 1].owner.Free? then i + 2 else i + 1;
    var m := Block(bs[i].start, bs[i].size + (if c == i + 2 then bs[i + 1].size else 0), Free);
    var b1 := bs[i := bs[i].(owner := Free)];
    var b2 := if i + 1 < |b1| && b1[i + 1].owner.Free? then MergeNext(b1, i) else b1;
    FreeNextStep(bs, i);
    assert b2 == bs[..i] + [m] + bs[c..];
    FreePrevStep(bs, i, c, m);
  }

  /** The first steps of `nouveau_mem_free_block`: block i, freed and
      merged with a free successor, is one free block m in place of
      blocks i..c-1. */
  lemma FreeNextStep(bs: seq<Block>, i: nat)
    requires i < |bs|
    ensures var b1 := bs[i := bs[i].(owner := Free)];
      var c := if i + 1 < |bs| && bs[i + 1].owner.Free? then i + 2 else i + 1;
      var m := Block(bs[i].start, bs[i].size + (if c == i + 2 then bs[i + 1].size else 0), Free);
      (if i + 1 < |b1| && b1[i + 1].owner.Free? then MergeNext(b1, i) else b1) == bs[..i] + [m] + bs[c..]
  {
    var b1 := bs[i := bs[i].(owner := Free)];
    var x := Block(bs[i].start, bs[i].size, Free);
    assert b1 == bs[..i] + [x] + bs[i + 1..];
    if i + 1 < |bs| && bs[i + 1].owner.Free? {
      assert bs[i + 1..] == [bs[i + 1]] + bs[i + 2..];
      MergeSplice(bs[..i], x, bs[i + 1], bs[i + 2..]);
    }
  }

  /** The last step of `nouveau_mem_free_block`: merging m with a free
      predecessor gives `Freed`. */
  lemma FreePrevStep(bs: seq<Block>, i: nat, c: nat, m: Block)
    requires i < |bs| && c == if i + 1 < |bs| && bs[i + 1].owner.Free? then i + 2 else i + 1
    requires m == Block(bs[i].start, bs[i].size + (if c == i + 2 then bs[i + 1].size else 0), Free)
    ensures var b2 := bs[..i] + [m] + bs[c..];
      (if i > 0 && b2[i - 1].owner.Free? then MergeNext(b2, i - 1) else b2) == Freed(bs, i)
  {
    var b2 := bs[..i] + [m] + bs[c..];
    if i > 0 {
      assert b2[i - 1] == bs[i - 1];
    }
    if i > 0 && bs[i - 1].owner.Free? {
      FreePrevMerged(bs, i, c, m);
    } else {
      assert Freed(bs, i) == b2;
    }
  }

  /** With a free predecessor, m and it become one block. */
  lemma FreePrevMerged(bs: seq<Block>, i: nat, c: nat, m: Block)
    requires 0 < i < |bs| && bs[i - 1].owner.Free?
    requires c == if i + 1 < |bs| && bs[i + 1].owner.Free? then i + 2 else i + 1
    requires m == Block(bs[i].start, bs[i].size + (if c == i + 2 then bs[i + 1].size else 0), Free)
    ensures MergeNext(bs[..i] + [m] + bs[c..], i - 1) == Freed(bs, i)
  {
    assert bs[..i] == bs[..i - 1] + [bs[i - 1]];
    assert bs[..i] + [m] + bs[c..] == bs[..i - 1] + [bs[i - 1], m] + bs[c..];
    MergeSplice(bs[..i - 1], bs[i - 1], m, bs[c..]);
  }

  /** Merging the pair x, y in the middle of a list leaves the rest. */
  lemma MergeSplice(pre: seq<Block>, x: Block, y: Block, post: seq<Block>)
    ensures MergeNext(pre + [x, y] + post, |pre|) == pre + [Block(x.start, x.size + y.size, x.owner)] + post
  {
    var l := pre + [x, y] + post;
    assert l[..|pre|] == pre && l[|pre| + 2..] == post;
  }

  /** Freeing block i and merging it with its free neighbours keeps the
      heap tiled and coalesced and drops block i from the owned ones. */
  lemma FreedOk(bs: seq<Block>, lo: nat, hi: nat, i: nat)
    requires Spans(bs, lo, hi) && Coalesced(bs) && i < |bs|
    ensures Spans(Freed(bs, i), lo, hi) && Coalesced(Freed(bs, i))
    ensures Owned(Freed(bs, i)) == Owned(bs[..i]) + Owned(bs[i + 1..])
  {
    var a := if i > 0 && bs[i - 1].owner.Free? then i - 1 else i;
    var c := if i + 1 < |bs| && bs[i + 1].owner.Free? then i + 2 else i + 1;
    var nb := Freed(bs, i)[a];
    assert Freed(bs, i) == bs[..a] + [nb] + bs[c..];
    FreedSpans(bs, lo, hi, a, c, nb);
    FreedOwned(bs, i, a, c, nb);
  }

  /** The merged block covers blocks a..c-1 and sits between two owned
      blocks (or the ends). */
  lemma FreedSpans(bs: seq<Block>, lo: nat, hi: nat, a: nat, c: nat, nb: Block)
    requires Spans(bs, lo, hi) && Coalesced(bs) && a < c <= |bs| && c <= a + 3
    requires nb == Block(bs[a].start, bs[a].size + (if a + 1 < c then bs[a + 1].size else 0) +
      (if a + 2 < c then bs[a + 2].size else 0), Free)
    requires a > 0 ==> !bs[a - 1].owner.Free?
    requires c < |bs| ==> !bs[c].owner.Free?
    ensures Spans(bs[..a] + [nb] + bs[c..], lo, hi) && Coalesced(bs[..a] + [nb] + bs[c..])
  {
    assert End(nb) == End(bs[c - 1]);
    SpliceSpans(bs, lo, hi, a, c, [nb]);
    SpliceCoalesced(bs, a, c, [nb]);
  }

  /** Blocks a..c-1 other than i are free, so the owned blocks lose only
      block i. */
  lemma FreedOwned(bs: seq<Block>, i: nat, a: nat, c: nat, nb: Block)
    requires a <= i < c <= |bs| && a + 1 >= i && c <= i + 2 && nb.owner.Free?
    requires a < i ==> bs[a].owner.Free?
    requires c > i + 1 ==> bs[i + 1].owner.Free?
    ensures Owned(bs[..a] + [nb] + bs[c..]) == Owned(bs[..i]) + Owned(bs[i + 1..])
  {
    OwnedConcat(bs[..a] + [nb], bs[c..]);
    OwnedConcat(bs[..a], [nb]);
    assert Owned([nb]) == [];
    assert bs[..i] == bs[..a] + bs[a..i];
    assert bs[i + 1..] == bs[i + 1..c] + bs[c..];
    OwnedConcat(bs[..a], bs[a..i]);
    OwnedConcat(bs[i + 1..c], bs[c..]);
    if a < i {
      assert bs[a..i] == [bs[a]];
      assert Owned([bs[a]]) == [];
    } else {
      assert bs[a..i] == [];
    }
    if c > i + 1 {
      assert bs[i + 1..c] == [bs[i + 1]];
      assert Owned([bs[i + 1]]) == [];
    } else {
      assert bs[i + 1..c] == [];
    }
  }

  /** Handing out the caller's piece of free block i keeps the heap tiled
      and coalesced, and adds the piece to the owned blocks. */
  lemma CarveKeepsOk(bs: seq<Block>, lo: nat, hi: nat, i: nat, start: nat, size: nat, owner: Owner,
                     headFails: bool, tailFails: bool)
    requires Spans(bs, lo, hi) && Coalesced(bs) && i < |bs| && bs[i].owner.Free? && !owner.Free?
    requires bs[i].start <= start && start + size <= End(bs[i])
    ensures var (pieces, at) := Carve(bs[i], start, size, owner, headFails, tailFails);
      var r := bs[..i] + pieces + bs[i + 1..];
      Spans(r, lo, hi) && Coalesced(r) && i + at < |r| && r[i + at] == pieces[at] &&
      Owned(r) == Owned(bs[..i]) + [pieces[at]] + Owned(bs[i + 1..])
  {
    var b := bs[i];
    var (pieces, at) := Carve(b, start, size, owner, headFails, tailFails);
    CarveOk(b, start, size, owner, headFails, tailFails);
    CarveOwned(b, start, size, owner, headFails, tailFails);
    SpliceSpans(bs, lo, hi, i, i + 1, pieces);
    SpliceCoalesced(bs, i, i + 1, pieces);
    SpliceIndex(bs, i, i + 1, pieces);
    OwnedConcat(bs[..i] + pieces, bs[i + 1..]);
    OwnedConcat(bs[..i], pieces);
  }
}
