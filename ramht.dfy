/** The RAMHT of a channel: a hash table of 8-byte slots, each a handle word
    followed by a context word, filled by linear probing from the handle's
    hash. A slot is free while its context word is zero. */
module Ramht {
  import opened Util
  import opened Bits

  const ENOMEM: int := 12

  /** The value of `hash` the loop of `pscnv_ramht_hash` builds when its
      counter starts at i: the handle folded onto itself in bits-wide
      pieces (`handle & ((1 << bits) - 1)`, then `handle >>= bits`), one
      piece per round while i > 0. */
  function Fold(handle: nat, bits: nat, i: int): (h: nat)
    requires bits > 0
    decreases i
  {
    if i <= 0 then 0 else Xor(Low(handle, Pow2(bits)), Fold(High(handle, Pow2(bits)), bits, i - bits))
  }

  /** Every fold stays below 2^bits: it is a slot number of the table. */
  lemma {:induction false} FoldBelow(handle: nat, bits: nat, i: int)
    requires bits > 0
    ensures Fold(handle, bits, i) < Pow2(bits)
    decreases i
  {
    if i > 0 {
      var p := Pow2(bits);
      FoldBelow(High(handle, p), bits, i - bits);
      XorBelow(Low(handle, p), Fold(High(handle, p), bits, i - bits), bits);
    }
  }

  /** The loop of `pscnv_ramht_hash`, run from a given first value of its
      counter. */
  method HashFrom(bits: nat, handle: u32, first: int) returns (hash: nat)
    requires 0 < bits < 32
    ensures hash == Fold(handle, bits, first)
  {
    hash := 0;
    var h: nat := handle;
    var i := first;
    var m := Pow2(bits);
    XorZero(Fold(handle, bits, first));
    while i > 0
      invariant Xor(hash, Fold(h, bits, i)) == Fold(handle, bits, first)
      decreases i
    {
      XorAssoc(hash, Low(h, m), Fold(High(h, m), bits, i - bits));
      hash := Xor(hash, Low(h, m));
      h := High(h, m);
      i := i - bits;
    }
    XorZero(hash);
  }

  /** `pscnv_ramht_hash` as written: the counter starts at 0 and the loop
      runs while it is positive, so the loop never runs. */
  method HashAsWritten(bits: nat, handle: u32) returns (hash: nat)
    requires 0 < bits < 32
    ensures hash == 0
  {
    hash := HashFrom(bits, handle, 0);
  }

  /** The hash with the counter starting at 32, so that every bit of the
      handle is folded in. */
  method Hash(bits: nat, handle: u32) returns (hash: nat)
    requires 0 < bits < 32
    ensures hash == Fold(handle, bits, 32)
    ensures hash < Pow2(bits)
  {
    hash := HashFrom(bits, handle, 32);
    FoldBelow(handle, bits, 32);
  }

  /** The hash as written sends every handle to slot 0: two handles that
      differ in their low bits share a start slot, which the folded hash
      tells apart. */
  lemma HashIgnoresHandle()
    ensures Fold(1, 9, 0) == Fold(0, 9, 0)
    ensures Fold(1, 9, 32) != Fold(0, 9, 32)
    ensures Fold(1, 9, 32) == 1
  {
    assert Pow2(9) == 512;
    assert Fold(0, 9, 32) == 0 by {
      assert Fold(0, 9, 5) == 0;
      assert Fold(0, 9, 14) == 0;
      assert Fold(0, 9, 23) == 0;
    }
    assert Fold(1, 9, 32) == Xor(1, 0);
    XorZero(1);
  }

  /** The number of slots of a table of 2^bits slots. */
  function Slots(bits: nat): (n: nat)
    ensures n == Pow2(bits)
  {
    Pow2(bits)
  }

  /** The slot the probe for a handle starts from: its folded hash, which
      is a slot of the table. */
  function Start(handle: u32, bits: nat): (h: nat)
    requires 0 < bits < 32
    ensures h < Slots(bits)
  {
    FoldBelow(handle, bits, 32);
    Fold(handle, bits, 32)
  }

  /** The slot of the k-th probe from slot h, in a table of n slots: the
      probe runs to the end of the table and wraps to slot 0. */
  function ProbeSlot(n: nat, h: nat, k: nat): (s: nat)
    requires h < n && k <= n
    ensures s < n
  {
    if h + k < n then h + k else h + k - n
  }

  /** The first probe, from the k-th on, that meets a free slot: a slot is
      free when its context word (the second word) is 0. */
  function FirstFree(t: seq<u32>, n: nat, h: nat, k: nat): (r: Option<nat>)
    requires h < n && |t| == 2 * n && k <= n
    ensures r.Some? ==> k <= r.value < n
    decreases n - k
  {
    if k == n then None
    else if t[2 * ProbeSlot(n, h, k) + 1] == 0 then Some(k)
    else FirstFree(t, n, h, k + 1)
  }

  /** The probe found is free and every probe before it is taken; no probe
      is found exactly when every remaining probe is taken. */
  lemma {:induction false} FirstFreeSpec(t: seq<u32>, n: nat, h: nat, k: nat)
    requires h < n && |t| == 2 * n && k <= n
    ensures var r := FirstFree(t, n, h, k);
      r.Some? ==> (t[2 * ProbeSlot(n, h, r.value) + 1] == 0 &&
        forall i :: k <= i < r.value ==> t[2 * ProbeSlot(n, h, i) + 1] != 0)
    ensures FirstFree(t, n, h, k).None? <==> forall i :: k <= i < n ==> t[2 * ProbeSlot(n, h, i) + 1] != 0
    decreases n - k
  {
    if k < n && t[2 * ProbeSlot(n, h, k) + 1] != 0 {
      FirstFreeSpec(t, n, h, k + 1);
    }
  }

  /** Slot s starts at byte 8 * s, the word 2 * s. */
  lemma WordOf(s: nat)
    ensures (8 * s) / 4 == 2 * s
  {
  }

  /** The next probe is the next slot, or slot 0 after the last one. */
  lemma ProbeAdvance(n: nat, h: nat, k: nat)
    requires h < n && k < n
    ensures ProbeSlot(n, h, k + 1) == if ProbeSlot(n, h, k) + 1 == n then 0 else ProbeSlot(n, h, k) + 1
  {
  }

  /** A taken slot sends the probe on to the next one. */
  lemma SkipTaken(t: seq<u32>, n: nat, h: nat, k: nat)
    requires h < n && |t| == 2 * n && k < n && t[2 * ProbeSlot(n, h, k) + 1] != 0
    ensures FirstFree(t, n, h, k) == FirstFree(t, n, h, k + 1)
  {
  }

  /** Probing from slot h comes back to h only after n probes. */
  lemma ProbeReturns(n: nat, h: nat, k: nat)
    requires h < n && 0 < k < n
    ensures ProbeSlot(n, h, k) != h
  {
  }

  /** Probing from slot h reaches slot s at probe number s - h, taken
      round the table. */
  lemma ProbeCovers(n: nat, h: nat, s: nat)
    requires h < n && s < n
    ensures ProbeSlot(n, h, if s >= h then s - h else s + n - h) == s
  {
  }

  /** A table with no free slot has no room, from whatever slot the probe
      starts. */
  lemma FullTable(t: seq<u32>, n: nat, h: nat)
    requires n > 0 && |t| == 2 * n && h < n
    requires forall s :: 0 <= s < n ==> t[2 * s + 1] != 0
    ensures FirstFree(t, n, h, 0).None?
  {
    FirstFreeSpec(t, n, h, 0);
  }

  /** A table with a free slot always has room: the probe finds one. */
  lemma RoomFound(t: seq<u32>, n: nat, h: nat, s: nat)
    requires n > 0 && |t| == 2 * n && h < n && s < n && t[2 * s + 1] == 0
    ensures FirstFree(t, n, h, 0).Some?
  {
    FirstFreeSpec(t, n, h, 0);
    ProbeCovers(n, h, s);
    var j := if s >= h then s - h else s + n - h;
    assert t[2 * ProbeSlot(n, h, j) + 1] == 0;
  }

  /** In an empty table of 2^9 slots, handle 1 goes to slot 0 as written
      and to slot 1 with the folded hash. */
  lemma EmptyTableSlots(t: seq<u32>)
    requires |t| == 2 * 512 && forall w :: 0 <= w < |t| ==> t[w] == 0
    ensures Slots(9) == 512
    ensures FirstFree(t, 512, 0, 0) == Some(0)
    ensures Start(1, 9) == 1 && FirstFree(t, 512, Start(1, 9), 0) == Some(0)
    ensures ProbeSlot(512, Start(1, 9), 0) == 1
  {
    assert Pow2(9) == 512;
    HashIgnoresHandle();
    assert Start(1, 9) == 1;
    assert ProbeSlot(512, 0, 0) == 0 && t[1] == 0;
    assert ProbeSlot(512, 1, 0) == 1 && t[3] == 0;
  }

  class Table {
    /** `ramht->bits`: the table holds 2^bits slots, 8 << bits bytes (an
        int, so bits stays below 29). */
    const bits: nat
    /** The table's words, two per slot, as the channel's buffer holds them
        from `ramht->offset` on. */
    const words: array<u32>

    ghost predicate Valid()
    {
      0 < bits < 29 && words.Length == 2 * Slots(bits)
    }

    constructor (bits: nat)
      requires 0 < bits < 29
      ensures Valid() && this.bits == bits
      ensures forall s :: 0 <= s < words.Length ==> words[s] == 0
    {
      this.bits := bits;
      words := new u32[2 * Slots(bits)](_ => 0);
    }

    /** The do-while loop of `pscnv_ramht_insert`: from byte offset
        8 * h it reads the context word of each slot, steps 8 bytes at a
        time, wraps to 0 at the end of the table, and stops at a free slot
        or when it is back at its start. */
    method Probe(h: nat) returns (found: bool, pos: nat)
      requires Valid() && h < Slots(bits)
      ensures var f := FirstFree(words[..], Slots(bits), h, 0);
        found == f.Some? && (found ==> pos == 8 * ProbeSlot(Slots(bits), h, f.value))
    {
      var n := Slots(bits);
      ghost var t: seq<u32> := words[..];
      var start := h * 8;
      pos := start;
      ghost var k := 0;
      while true
        invariant 0 <= k < n && pos == 8 * ProbeSlot(n, h, k)
        invariant FirstFree(t, n, h, 0) == FirstFree(t, n, h, k)
        decreases n - k
      {
        WordOf(ProbeSlot(n, h, k));
        if words[pos / 4 + 1] == 0 {
          return true, pos;
        }
        ProbeAdvance(n, h, k);
        SkipTaken(t, n, h, k);
        pos := pos + 8;
        if pos == 8 * n {
          pos := 0;
        }
        k := k + 1;
        if pos == start {
          assert k == n by {
            if k < n {
              ProbeReturns(n, h, k);
            }
          }
          return false, pos;
        }
      }
    }

    /** The body of `pscnv_ramht_insert` once the hash is known: handle and
        context go into the first free slot met by probing from slot h,
        wrapping at the end of the table; a full table gives -ENOMEM and is
        left as it was. */
    method InsertAt(h: nat, handle: u32, context: u32) returns (r: int)
      requires Valid() && h < Slots(bits)
      modifies words
      ensures var f := FirstFree(old(words[..]), Slots(bits), h, 0);
        f.None? ==> r == -ENOMEM && words[..] == old(words[..])
      ensures var f := FirstFree(old(words[..]), Slots(bits), h, 0);
        f.Some? ==> var s := ProbeSlot(Slots(bits), h, f.value);
          r == 0 && words[..] == old(words[..])[2 * s := handle][2 * s + 1 := context]
    {
      var found, pos := Probe(h);
      if !found {
        return -ENOMEM;
      }
      ghost var t: seq<u32> := words[..];
      ghost var s := ProbeSlot(Slots(bits), h, FirstFree(t, Slots(bits), h, 0).value);
      WordOf(s);
      words[pos / 4] := handle;
      words[pos / 4 + 1] := context;
      assert words[..] == t[2 * s := handle][2 * s + 1 := context];
      r := 0;
    }

    /** `pscnv_ramht_insert` as written: the hash is always 0, so every
        handle is stored in the first free slot counting from slot 0. */
    method InsertAsWritten(handle: u32, context: u32) returns (r: int)
      requires Valid()
      modifies words
      ensures var f := FirstFree(old(words[..]), Slots(bits), 0, 0);
        f.None? ==> r == -ENOMEM && words[..] == old(words[..])
      ensures var f := FirstFree(old(words[..]), Slots(bits), 0, 0);
        f.Some? ==> var s := f.value;
          r == 0 && words[..] == old(words[..])[2 * s := handle][2 * s + 1 := context]
    {
      var hash := HashAsWritten(bits, handle);
      r := InsertAt(hash, handle, context);
    }

    /** `pscnv_ramht_insert` with the corrected hash: the probe starts at
        the slot the handle's folded hash names. */
    method Insert(handle: u32, context: u32) returns (r: int)
      requires Valid()
      modifies words
      ensures var f := FirstFree(old(words[..]), Slots(bits), Start(handle, bits), 0);
        f.None? ==> r == -ENOMEM && words[..] == old(words[..])
      ensures var f := FirstFree(old(words[..]), Slots(bits), Start(handle, bits), 0);
        f.Some? ==> var s := ProbeSlot(Slots(bits), Start(handle, bits), f.value);
          r == 0 && words[..] == old(words[..])[2 * s := handle][2 * s + 1 := context]
    {
      var hash := Hash(bits, handle);
      r := InsertAt(hash, handle, context);
    }
  }
}
