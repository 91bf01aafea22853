/** The id allocator of the Solaris DRM port: ids are handed out from a
    list of free-id ranges that tile [0, 0x7fffffff), each with a bump
    pointer (`min_unused_id`) and a stack of ids given back; the ids in use
    and their objects are kept in a tree, here a map. */
module SunIdr {
  import opened Util

  const EINVAL: int := 22
  const ENOMEM: int := 12
  /** The end of the last range. */
  const MAX_ID: nat := 0x7fff_ffff

  /** An object pointer; 0 is NULL. */
  type Obj = int
  const NULL: Obj := 0

  /** `struct idr_free_id_range`: the ids [start, end) belong to the range;
      those below `minUnused` have been handed out, and `freeIds` lists the
      ones given back, most recent first. */
  datatype FreeRange = FreeRange(start: nat, end: nat, minUnused: nat, freeIds: seq<nat>)

  /** `fr_isfull`: the bump pointer has reached the end of the range. */
  predicate IsFull(r: FreeRange)
  {
    r.minUnused >= r.end
  }

  predicate Distinct(s: seq<nat>)
  {
    forall j, k :: 0 <= j < k < |s| ==> s[j] != s[k]
  }

  /** A range is well formed when its bump pointer lies within it and its
      free ids are distinct ids it has handed out. */
  ghost predicate RangeOk(r: FreeRange)
  {
    r.start <= r.minUnused <= r.end && Distinct(r.freeIds) &&
    forall x | x in r.freeIds :: r.start <= x < r.minUnused
  }

  predicate Covers(r: FreeRange, id: int)
  {
    r.start <= id < r.end
  }

  /** `fr_new`: a range from start to the largest id, with nothing handed
      out; it is well formed exactly when start is a valid id, and full
      only when it starts at the end. */
  function NewRange(start: nat): (r: FreeRange)
    ensures r.start == start && r.end == MAX_ID && r.minUnused == start && r.freeIds == []
    ensures RangeOk(r) <==> start <= MAX_ID
    ensures IsFull(r) <==> start >= MAX_ID
  {
    FreeRange(start, MAX_ID, start, [])
  }

  /** The ranges tile [0, MAX_ID) in order: each ends where the next one
      starts, and only the last one may be empty. */
  ghost predicate Tiled(rs: seq<FreeRange>)
  {
    |rs| > 0 && rs[0].start == 0 && rs[|rs| - 1].end == MAX_ID &&
    forall k :: 0 <= k < |rs| - 1 ==> rs[k].start < rs[k].end == rs[k + 1].start
  }

  /** A range agrees with the ids in use: it is well formed, every id in
      use that it covers has been handed out and not given back, and none
      of its free ids is in use. */
  ghost predicate Good(r: FreeRange, used: map<nat, Obj>)
  {
    RangeOk(r) &&
    (forall u | u in used && Covers(r, u) :: u < r.minUnused && u !in r.freeIds) &&
    (forall x | x in r.freeIds :: x !in used)
  }

  /** The allocator is well formed: tiled ranges that each agree with the
      ids in use, and every id in use below MAX_ID. */
  ghost predicate IdrOk(rs: seq<FreeRange>, used: map<nat, Obj>)
  {
    Tiled(rs) && (forall u | u in used :: u < MAX_ID) &&
    forall k | 0 <= k < |rs| :: Good(rs[k], used)
  }

  /** Dropping an id from use keeps a range in agreement. */
  lemma GoodWithout(r: FreeRange, used: map<nat, Obj>, id: nat)
    requires Good(r, used)
    ensures Good(r, used - {id})
  {
  }

  /** Putting an id the range does not cover into use keeps it in
      agreement. */
  lemma GoodWith(r: FreeRange, used: map<nat, Obj>, id: nat, obj: Obj)
    requires Good(r, used) && !Covers(r, id)
    ensures Good(r, used[id := obj])
  {
    forall x | x in r.freeIds
      ensures x != id
    {
    }
  }

  /** A range before another ends no later than the other starts. */
  lemma {:induction false} Ordered(rs: seq<FreeRange>, a: nat, b: nat)
    requires Tiled(rs) && a < b < |rs|
    ensures rs[a].end <= rs[b].start && rs[a].start < rs[b].start
    decreases b - a
  {
    if a + 1 < b {
      Ordered(rs, a + 1, b);
    }
  }

  /** The ranges that start at or above the start of range j are those
      from j on. */
  lemma StartsFrom(rs: seq<FreeRange>, j: nat)
    requires Tiled(rs) && j < |rs|
    ensures forall m :: 0 <= m < |rs| ==> (rs[m].start >= rs[j].start <==> m >= j)
  {
    forall m | 0 <= m < |rs|
      ensures rs[m].start >= rs[j].start <==> m >= j
    {
      if m < j {
        Ordered(rs, m, j);
      } else if m > j {
        Ordered(rs, j, m);
      }
    }
  }

  /** At most one range covers an id. */
  lemma CoverUnique(rs: seq<FreeRange>, id: int, a: nat, b: nat)
    requires Tiled(rs) && a < |rs| && b < |rs| && Covers(rs[a], id) && Covers(rs[b], id)
    ensures a == b
  {
    if a < b {
      Ordered(rs, a, b);
    } else if b < a {
      Ordered(rs, b, a);
    }
  }

  /** `idr_get_free_id_in_range`, giving the id (or -1) and the range
      afterwards: the most recently given-back id first, else the bump
      pointer, which moves on; -1 only when the range has neither. */
  function Take(r: FreeRange): (out: (int, FreeRange))
    ensures out.0 < 0 <==> r.freeIds == [] && IsFull(r)
    ensures out.0 < 0 ==> out == (-1, r)
    ensures r.freeIds != [] ==> out.0 == r.freeIds[0] && out.1 == r.(freeIds := r.freeIds[1..])
    ensures r.freeIds == [] && !IsFull(r) ==> out.0 == r.minUnused && out.1 == r.(minUnused := r.minUnused + 1)
  {
    if r.freeIds != [] then
      (r.freeIds[0], r.(freeIds := r.freeIds[1..]))
    else if !IsFull(r) then
      (r.minUnused, r.(minUnused := r.minUnused + 1))
    else
      var none: int := -1;
      (none, r)
  }

  /** Taking an id from a range that agrees with the ids in use gives an
      id not in use, and the range still agrees, whether or not the id is
      then put into use. */
  lemma TakeGood(r0: FreeRange, used: map<nat, Obj>, obj: Obj)
    requires Good(r0, used) && Take(r0).0 >= 0
    ensures var (id, r) := Take(r0);
      Covers(r0, id) && id < r.minUnused && id !in r.freeIds &&
      id !in used && Good(r, used) && Good(r, used[id := obj])
  {
    var (id, r) := Take(r0);
    if r0.freeIds != [] {
      var ids := r0.freeIds;
      assert id == ids[0] && r.freeIds == ids[1..];
      assert ids[0] in ids;
      forall x | x in r.freeIds
        ensures x in ids && x != id
      {
        var j :| 1 <= j < |ids| && ids[j] == x;
      }
      forall i, j | 0 <= i < j < |r.freeIds|
        ensures r.freeIds[i] != r.freeIds[j]
      {
        assert r.freeIds[i] == ids[i + 1] && r.freeIds[j] == ids[j + 1];
      }
    }
  }

  /** Taking an id from a well-formed allocator gives an id not in use, and
      the allocator stays well formed whether or not the id is then
      recorded as used. */
  lemma TakeKeepsOk(rs: seq<FreeRange>, used: map<nat, Obj>, k: nat, obj: Obj)
    requires IdrOk(rs, used) && k < |rs| && Take(rs[k]).0 >= 0
    ensures var (id, r) := Take(rs[k]);
      id !in used && IdrOk(rs[k := r], used) && IdrOk(rs[k := r], used[id := obj])
  {
    var (id, r) := Take(rs[k]);
    var rs' := rs[k := r];
    TakeGood(rs[k], used, obj);
    if k < |rs| - 1 {
      Ordered(rs, k, |rs| - 1);
    }
    assert id < MAX_ID;
    forall m | 0 <= m < |rs'|
      ensures Good(rs'[m], used[id := obj])
    {
      if m != k {
        if Covers(rs[m], id) {
          CoverUnique(rs, id, k, m);
        }
        GoodWith(rs[m], used, id, obj);
      }
    }
  }

  /** The free ids kept by the old range when `fr_insert` splits it at s:
      those below s, in their order. */
  function Below(ids: seq<nat>, s: nat): (r: seq<nat>)
    ensures |r| <= |ids|
  {
    if |ids| == 0 then []
    else Below(ids[..|ids| - 1], s) + (if ids[|ids| - 1] < s then [ids[|ids| - 1]] else [])
  }

  /** The free ids moved to the new range: those at or above s, each pushed
      in front of the ones moved before it. */
  function Moved(ids: seq<nat>, s: nat): (r: seq<nat>)
    ensures |r| <= |ids|
  {
    if |ids| == 0 then []
    else (if ids[|ids| - 1] >= s then [ids[|ids| - 1]] else []) + Moved(ids[..|ids| - 1], s)
  }

  /** One more id of the list goes to one side of the split. */
  lemma SplitIdsStep(ids: seq<nat>, k: nat, s: nat)
    requires k < |ids|
    ensures Below(ids[..k + 1], s) == Below(ids[..k], s) + (if ids[k] < s then [ids[k]] else [])
    ensures Moved(ids[..k + 1], s) == (if ids[k] >= s then [ids[k]] else []) + Moved(ids[..k], s)
  {
    var pre := ids[..k + 1];
    assert pre[..k] == ids[..k] && pre[k] == ids[k];
  }

  /** The split divides the free ids at s: the kept ones are exactly those
      below s, the moved ones exactly those at or above it, and neither
      list repeats an id if the original does not. */
  lemma {:induction false} SplitIds(ids: seq<nat>, s: nat)
    ensures forall x :: x in Below(ids, s) <==> x in ids && x < s
    ensures forall x :: x in Moved(ids, s) <==> x in ids && x >= s
    ensures Distinct(ids) ==> Distinct(Below(ids, s)) && Distinct(Moved(ids, s))
    ensures |Below(ids, s)| + |Moved(ids, s)| == |ids|
  {
    if |ids| > 0 {
      var init := ids[..|ids| - 1];
      var last := ids[|ids| - 1];
      assert ids == init + [last];
      SplitIds(init, s);
      if Distinct(ids) {
        assert last !in init;
      }
    }
  }

  /** `fr_insert` on the range it splits: the old range now ends at s, the
      new one runs from s to the old end. If the old range was full at s,
      the new one takes over its bump pointer and the free ids at or above
      s, and the old one is full; otherwise the new one starts fresh. */
  function Split(prev: FreeRange, s: nat): (pair: (FreeRange, FreeRange))
    ensures pair.0.start == prev.start && pair.0.end == s && pair.1.start == s && pair.1.end == prev.end
  {
    if prev.minUnused >= s then
      (prev.(end := s, minUnused := s, freeIds := Below(prev.freeIds, s)),
       FreeRange(s, prev.end, prev.minUnused, Moved(prev.freeIds, s)))
    else
      (prev.(end := s), FreeRange(s, prev.end, s, []))
  }

  /** Splitting a range inside it gives two ranges that agree with the
      ids in use if the original does. */
  lemma SplitGood(prev: FreeRange, s: nat, used: map<nat, Obj>)
    requires Good(prev, used) && prev.start < s <= prev.end
    ensures Good(Split(prev, s).0, used) && Good(Split(prev, s).1, used)
  {
    SplitIds(prev.freeIds, s);
    var (a, b) := Split(prev, s);
    if prev.minUnused < s {
      forall x | x in prev.freeIds
        ensures x < s
      {
      }
    }
    assert forall x :: x in a.freeIds ==> x in prev.freeIds;
    assert forall x :: x in b.freeIds ==> x in prev.freeIds;
  }

  /** Inserting the split of range p into a well-formed allocator keeps it
      well formed. */
  lemma InsertKeepsOk(rs: seq<FreeRange>, used: map<nat, Obj>, p: nat, s: nat)
    requires IdrOk(rs, used) && p < |rs| && rs[p].start < s <= rs[p].end
    requires p + 1 < |rs| ==> s < rs[p].end
    ensures var (a, b) := Split(rs[p], s);
      IdrOk(rs[..p] + [a, b] + rs[p + 1..], used)
  {
    InsertTiled(rs, p, s);
    InsertGood(rs, used, p, s);
  }

  /** The split of range p, inserted in its place, keeps the tiling. */
  lemma InsertTiled(rs: seq<FreeRange>, p: nat, s: nat)
    requires Tiled(rs) && p < |rs| && rs[p].start < s <= rs[p].end
    requires p + 1 < |rs| ==> s < rs[p].end
    ensures var (a, b) := Split(rs[p], s);
      Tiled(rs[..p] + [a, b] + rs[p + 1..])
  {
    var (a, b) := Split(rs[p], s);
    var rs' := rs[..p] + [a, b] + rs[p + 1..];
    assert |rs'| == |rs| + 1;
    forall m | 0 <= m < |rs'| - 1
      ensures rs'[m].start < rs'[m].end == rs'[m + 1].start
    {
      if m < p {
        assert rs'[m] == rs[m];
        assert rs'[m + 1] == if m + 1 < p then rs[m + 1] else a;
      } else if m == p {
        assert rs'[m] == a && rs'[m + 1] == b;
      } else if m == p + 1 {
        assert rs'[m] == b && rs'[m + 1] == rs[m];
      } else {
        assert rs'[m] == rs[m - 1] && rs'[m + 1] == rs[m];
      }
    }
  }

  /** The split of range p, inserted in its place, keeps every range in
      agreement with the ids in use. */
  lemma InsertGood(rs: seq<FreeRange>, used: map<nat, Obj>, p: nat, s: nat)
    requires (forall k | 0 <= k < |rs| :: Good(rs[k], used)) && p < |rs| && rs[p].start < s <= rs[p].end
    ensures var (a, b) := Split(rs[p], s); var rs' := rs[..p] + [a, b] + rs[p + 1..];
      forall k | 0 <= k < |rs'| :: Good(rs'[k], used)
  {
    var (a, b) := Split(rs[p], s);
    var rs' := rs[..p] + [a, b] + rs[p + 1..];
    SplitGood(rs[p], s, used);
    forall m | 0 <= m < |rs'|
      ensures Good(rs'[m], used)
    {
      if m < p {
        assert rs'[m] == rs[m];
      } else if m > p + 1 {
        assert rs'[m] == rs[m - 1];
      } else {
        assert rs'[m] == if m == p then a else b;
      }
    }
  }

  /** The first range from i on that starts at or above start, or the
      number of ranges: where the walk of `fr_insert` stops. */
  function FirstAtOrAbove(rs: seq<FreeRange>, start: nat, i: nat): (q: nat)
    requires i <= |rs|
    ensures i <= q <= |rs|
    ensures forall m :: i <= m < q ==> rs[m].start < start
    ensures q < |rs| ==> rs[q].start >= start
    decreases |rs| - i
  {
    if i == |rs| || rs[i].start >= start then i else FirstAtOrAbove(rs, start, i + 1)
  }

  /** In tiled ranges the walk stops at the one index q with every range
      before it below start and range q (if any) at or above it. */
  lemma FirstAtOrAboveIs(rs: seq<FreeRange>, start: nat, q: nat)
    requires Tiled(rs) && 0 < q <= |rs| && rs[q - 1].start < start
    requires q < |rs| ==> rs[q].start >= start
    ensures FirstAtOrAbove(rs, start, 0) == q
  {
    var q' := FirstAtOrAbove(rs, start, 0);
    if q' < q - 1 {
      Ordered(rs, q', q - 1);
    }
  }

  /** The ranges `idr_get_new_above` searches, and the index it starts
      from: the range that starts at start if there is one (`fr_get`),
      otherwise the one `fr_insert` splits off the last range below it. */
  ghost function Placed(rs: seq<FreeRange>, start: nat): (out: (seq<FreeRange>, nat))
    requires Tiled(rs) && start <= MAX_ID
    ensures out.1 < |out.0| && out.0[out.1].start == start
  {
    var q := FirstAtOrAbove(rs, start, 0);
    if q < |rs| && rs[q].start == start then (rs, q)
    else
      var (a, b) := Split(rs[q - 1], start);
      (rs[..q - 1] + [a, b] + rs[q..], q)
  }

  /** The first range from k on that has an id to give, or the number of
      ranges. */
  function FirstWithIdFrom(rs: seq<FreeRange>, k: nat): (m: nat)
    requires k <= |rs|
    ensures k <= m <= |rs|
    ensures m < |rs| ==> Take(rs[m]).0 >= 0
    ensures forall i :: k <= i < m ==> Take(rs[i]).0 < 0
    decreases |rs| - k
  {
    if k == |rs| || Take(rs[k]).0 >= 0 then k else FirstWithIdFrom(rs, k + 1)
  }

  /** Giving back an id in use that a range covers: pushed onto its free
      ids, the range agrees with the ids in use without it. */
  lemma PushGood(r: FreeRange, used: map<nat, Obj>, id: nat)
    requires Good(r, used) && id in used && Covers(r, id)
    ensures Good(r.(freeIds := [id] + r.freeIds), used - {id})
  {
    var ids := [id] + r.freeIds;
    forall i, j | 0 <= i < j < |ids|
      ensures ids[i] != ids[j]
    {
      assert ids[j] == r.freeIds[j - 1];
      if i > 0 {
        assert ids[i] == r.freeIds[i - 1];
      }
    }
  }

  /** Giving back a used id: pushed onto the free ids of the range that
      covers it, and out of the used ids. */
  lemma RemoveKeepsOk(rs: seq<FreeRange>, used: map<nat, Obj>, k: nat, id: nat)
    requires IdrOk(rs, used) && k < |rs| && id in used && Covers(rs[k], id)
    ensures IdrOk(rs[k := rs[k].(freeIds := [id] + rs[k].freeIds)], used - {id})
  {
    var rs' := rs[k := rs[k].(freeIds := [id] + rs[k].freeIds)];
    forall m | 0 <= m < |rs'|
      ensures Good(rs'[m], used - {id})
    {
      if m == k {
        PushGood(rs[k], used, id);
      } else {
        GoodWithout(rs[m], used, id);
      }
    }
  }

  class Idr {
    /** `free_id_ranges`, in list order. */
    var ranges: seq<FreeRange>
    /** `used_ids`: each id in use and its object. */
    var used: map<nat, Obj>

    ghost predicate Valid()
      reads this
    {
      IdrOk(ranges, used)
    }

    /** `idr_init`: one range holding every id, and no id in use. */
    constructor ()
      ensures Valid() && ranges == [NewRange(0)] && used == map[]
    {
      ranges := [NewRange(0)];
      used := map[];
    }

    /** `idr_find`: the object stored under an id in use, NULL for any
        other id. */
    function Find(id: nat): (obj: Obj)
      reads this
      ensures id in used ==> obj == used[id]
      ensures id !in used ==> obj == NULL
    {
      if id in used then used[id] else NULL
    }

    /** `fr_get`: the range that starts at start, or -1. */
    method Get(start: nat) returns (i: int)
      ensures -1 <= i < |ranges|
      ensures i >= 0 ==> ranges[i].start == start
      ensures i == -1 <==> forall k :: 0 <= k < |ranges| ==> ranges[k].start != start
    {
      i := 0;
      while i < |ranges| && ranges[i].start != start
        invariant 0 <= i <= |ranges|
        invariant forall k :: 0 <= k < i ==> ranges[k].start != start
      {
        i := i + 1;
      }
      if i == |ranges| {
        i := -1;
      }
    }

    /** The loop of `fr_insert` that moves the free ids at or above s from
        the old range's list to the new one's. */
    static method SplitFree(ids: seq<nat>, s: nat) returns (keep: seq<nat>, moved: seq<nat>)
      ensures keep == Below(ids, s) && moved == Moved(ids, s)
    {
      keep, moved := [], [];
      var k := 0;
      while k < |ids|
        invariant 0 <= k <= |ids|
        invariant keep == Below(ids[..k], s) && moved == Moved(ids[..k], s)
      {
        SplitIdsStep(ids, k, s);
        if ids[k] < s {
          keep := keep + [ids[k]];
        } else {
          moved := [ids[k]] + moved;
        }
        k := k + 1;
      }
      assert ids[..|ids|] == ids;
    }

    /** The walk of `fr_insert`: from the first range on, it moves to the
        next range while that one starts below start. */
    method LastBefore(start: nat) returns (p: nat)
      requires |ranges| > 0 && ranges[0].start < start
      ensures p < |ranges| && ranges[p].start < start
      ensures p + 1 < |ranges| ==> ranges[p + 1].start >= start
    {
      p := 0;
      while p + 1 < |ranges| && ranges[p + 1].start < start
        invariant 0 <= p < |ranges| && ranges[p].start < start
      {
        p := p + 1;
      }
    }

    /** `fr_insert`: a new range starting at start, linked after the last
        range that starts below it, which now ends at start. The new range
        ends where the next one starts (or at MAX_ID); the ids and the free
        ids are divided as `Split` says. */
    method Insert(start: nat) returns (i: nat)
      requires Valid() && start <= MAX_ID
      requires forall k :: 0 <= k < |ranges| ==> ranges[k].start != start
      modifies this
      ensures Valid() && used == old(used)
      ensures 0 < i < |ranges| == |old(ranges)| + 1 && ranges[i].start == start
      ensures old(ranges)[i - 1].start < start && (i < |old(ranges)| ==> start < old(ranges)[i].start)
      ensures ranges == old(ranges)[..i - 1] + [Split(old(ranges)[i - 1], start).0, Split(old(ranges)[i - 1], start).1] + old(ranges)[i..]
      ensures ranges[i - 1].end == start && ranges[i].end == (if i + 1 < |ranges| then ranges[i + 1].start else MAX_ID)
    {
      var p := LastBefore(start);
      var prev := ranges[p];
      var n := NewRange(start);
      if p + 1 < |ranges| {
        n := n.(end := ranges[p + 1].start);
      }
      prev := prev.(end := start);
      if IsFull(prev) {
        n := n.(minUnused := prev.minUnused);
        prev := prev.(minUnused := start);
        var keep, moved := SplitFree(prev.freeIds, start);
        prev := prev.(freeIds := keep);
        n := n.(freeIds := moved);
      }
      assert (prev, n) == Split(ranges[p], start);
      InsertKeepsOk(ranges, used, p, start);
      var rs := ranges[..p] + [prev, n] + ranges[p + 1..];
      assert |rs| == |ranges| + 1 && rs[p] == prev && rs[p + 1] == n;
      ranges := rs;
      i := p + 1;
    }

    /** The range `idr_get_new_above` starts from: the one `fr_get` finds
        at start, or the one `fr_insert` adds there. */
    method RangeAt(start: nat) returns (j: nat)
      requires Valid() && start <= MAX_ID
      modifies this
      ensures Valid() && used == old(used)
      ensures j < |ranges| && ranges[j].start == start
      ensures forall m :: 0 <= m < |ranges| ==> (ranges[m].start >= start <==> m >= j)
      ensures (ranges, j) == Placed(old(ranges), start)
    {
      var k := Get(start);
      if k < 0 {
        j := Insert(start);
        FirstAtOrAboveIs(old(ranges), start, j);
      } else {
        j := k;
        if k > 0 {
          Ordered(ranges, k - 1, k);
          FirstAtOrAboveIs(ranges, start, k);
        }
      }
      StartsFrom(ranges, j);
    }

    /** The loop of `idr_get_new_above`: the first range from j on that
        has an id to give, or the number of ranges. */
    method FirstWithId(j: nat) returns (k: nat)
      requires j <= |ranges|
      ensures j <= k <= |ranges|
      ensures k < |ranges| ==> Take(ranges[k]).0 >= 0
      ensures forall m :: j <= m < k ==> ranges[m].freeIds == [] && IsFull(ranges[m])
      ensures k == FirstWithIdFrom(ranges, j)
    {
      k := j;
      while k < |ranges| && Take(ranges[k]).0 < 0
        invariant j <= k <= |ranges|
        invariant forall m :: j <= m < k ==> ranges[m].freeIds == [] && IsFull(ranges[m])
        invariant FirstWithIdFrom(ranges, k) == FirstWithIdFrom(ranges, j)
      {
        k := k + 1;
      }
    }

    /** `idr_get_new_above`: the range starting at start is found or
        inserted, and the first range from there on that has an id gives
        it; whether the tree node can be allocated is a parameter. A new id
        is at least start, was not in use, and is now in use with obj; -1
        means no range from start on has an id left. When the node cannot
        be allocated the id taken is not given back, so it is lost. */
    method GetNewAbove(obj: Obj, start: int, allocFails: bool) returns (r: int, newid: int)
      requires Valid() && start <= MAX_ID
      modifies this
      ensures Valid()
      ensures start < 0 ==> r == -EINVAL && unchanged(this)
      ensures start >= 0 ==> r == 0 || r == -1 || r == -ENOMEM
      ensures r == 0 ==> !allocFails && start <= newid && newid !in old(used) && used == old(used)[newid := obj]
      ensures r == 0 ==> Find(newid) == obj
      ensures r == -ENOMEM ==> allocFails && used == old(used)
      ensures r == -1 ==> (used == old(used) &&
        forall k :: 0 <= k < |ranges| && ranges[k].start >= start ==> ranges[k].freeIds == [] && IsFull(ranges[k]))
      ensures start >= 0 ==> var (R, j) := Placed(old(ranges), start); var k := FirstWithIdFrom(R, j);
        (k == |R| <==> r == -1) &&
        (k == |R| ==> ranges == R) &&
        (k < |R| ==> ranges == R[k := Take(R[k]).1] && (r == 0 ==> newid == Take(R[k]).0))
    {
      if start < 0 {
        return -EINVAL, 0;
      }
      var j := RangeAt(start);
      r, newid := TakeFrom(obj, start, j, allocFails);
    }

    /** The rest of `idr_get_new_above`, once the range at start is in
        place at index j: the first range from j on that has an id gives
        it, and the id is mapped to obj unless the node allocation fails. */
    method TakeFrom(obj: Obj, start: nat, j: nat, allocFails: bool) returns (r: int, newid: int)
      requires Valid() && j <= |ranges|
      requires forall m :: 0 <= m < |ranges| ==> (ranges[m].start >= start <==> m >= j)
      modifies this
      ensures Valid()
      ensures r == 0 || r == -1 || r == -ENOMEM
      ensures r == 0 ==> !allocFails && start <= newid && newid !in old(used) && used == old(used)[newid := obj]
      ensures r == 0 ==> Find(newid) == obj
      ensures r == -ENOMEM ==> allocFails && used == old(used)
      ensures r == -1 ==> (used == old(used) &&
        forall k :: 0 <= k < |ranges| && ranges[k].start >= start ==> ranges[k].freeIds == [] && IsFull(ranges[k]))
      ensures var k := FirstWithIdFrom(old(ranges), j);
        (k == |old(ranges)| <==> r == -1) &&
        (k == |old(ranges)| ==> ranges == old(ranges)) &&
        (k < |old(ranges)| ==>
           ranges == old(ranges)[k := Take(old(ranges)[k]).1] && (r == 0 ==> newid == Take(old(ranges)[k]).0))
    {
      var k := FirstWithId(j);
      if k == |ranges| {
        return -1, 0;
      }
      var (id, nr) := Take(ranges[k]);
      TakeKeepsOk(ranges, used, k, obj);
      TakeGood(ranges[k], used, obj);
      ranges := ranges[k := nr];
      if allocFails {
        return -ENOMEM, 0;
      }
      used := used[id := obj];
      return 0, id;
    }

    /** `idr_remove`: an id not in use gives -EINVAL; otherwise, unless the
        free-id node cannot be allocated, the id leaves the used ids and is
        pushed onto the free ids of the range that covers it. */
    method Remove(id: u32, allocFails: bool) returns (r: int)
      requires Valid()
      modifies this
      ensures Valid()
      ensures id !in old(used) ==> r == -EINVAL && unchanged(this)
      ensures id in old(used) && allocFails ==> r == -ENOMEM && unchanged(this)
      ensures id in old(used) && !allocFails ==> (r == 0 && used == old(used) - {id} && Find(id) == NULL &&
        |ranges| == |old(ranges)| &&
        forall k :: 0 <= k < |ranges| ==>
          ranges[k] == if Covers(old(ranges)[k], id) then old(ranges)[k].(freeIds := [id] + old(ranges)[k].freeIds)
                       else old(ranges)[k])
    {
      if id !in used {
        return -EINVAL;
      }
      if allocFails {
        return -ENOMEM;
      }
      var k := 0;
      while ranges[k].end <= id
        invariant 0 <= k < |ranges|
        invariant forall m :: 0 <= m < k ==> ranges[m].end <= id
        decreases |ranges| - k
      {
        k := k + 1;
      }
      assert Covers(ranges[k], id) by {
        if k > 0 {
          assert ranges[k].start == ranges[k - 1].end;
        }
      }
      forall m | 0 <= m < |ranges| && Covers(ranges[m], id)
        ensures m == k
      {
        CoverUnique(ranges, id, k, m);
      }
      RemoveKeepsOk(ranges, used, k, id);
      ranges := ranges[k := ranges[k].(freeIds := [id] + ranges[k].freeIds)];
      used := used - {id};
      r := 0;
    }

    /** `idr_replace`: an id in use gets the new object and the old one is
        returned; for any other id the result is -EINVAL as a pointer and
        nothing changes. */
    method Replace(obj: Obj, id: u32) returns (ret: Obj)
      modifies this
      ensures ranges == old(ranges)
      ensures id !in old(used) ==> ret == -EINVAL && used == old(used)
      ensures id in old(used) ==> ret == old(used)[id] && used == old(used)[id := obj] && Find(id) == obj
      ensures old(Valid()) ==> Valid()
    {
      if id !in used {
        return -EINVAL;
      }
      ret := used[id];
      used := used[id := obj];
    }
  }
}
