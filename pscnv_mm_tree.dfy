/** The pscnv range allocator. An address range is kept as a red-black
    tree of nodes ordered by `nodecmp`; here the tree is its in-order
    sequence of nodes, from the start sentinel to the end sentinel. Every
    node is free or used; free neighbours are merged, and an allocation is
    a chain of used nodes linked by their prev and next pointers. */
module PscnvMmTree {
  import opened Util

  const ENOMEM: int := 12
  const EINVAL: int := 22

  /** The flag bits of an allocation request. pscnv_mm.h is not part of
      this model: the values follow the masks in pscnv_mm.c, where the low
      two bits select one of four gap types and bit 0 alone the type of
      the used node. */
  const T1: nat := 1
  const LP: nat := 2
  const FRAGOK: nat := 4
  const FROMBACK: nat := 8

  /** Node types: two used types and free. */
  const USED0: nat := 0
  const USED1: nat := 1
  const FREE: nat := 2

  /** `1ull << 60`, the largest size `pscnv_mm_alloc` accepts. */
  const SIZE_LIMIT: nat := 0x1000_0000_0000_0000

  /** `flags & b` for a single-bit b. */
  predicate Bit(flags: nat, b: nat)
    requires b > 0
  {
    (flags / b) % 2 == 1
  }

  /** `pscnv_rounddown`: x divided by y, times y. */
  function RoundDown(x: nat, y: nat): (r: nat)
    requires y > 0
    ensures r % y == 0 && r <= x < r + y
  {
    MultipleMod(y, x / y);
    DivBounds(x, y);
    (x / y) * y
  }

  /** `pscnv_roundup` in unbounded arithmetic. */
  function RoundUp(x: nat, y: nat): (r: nat)
    requires y > 0
    ensures r % y == 0 && x <= r < x + y
  {
    RoundDown(x + y - 1, y)
  }

  /** No multiple of y between `RoundDown(x, y)` and x is left out ... */
  lemma RoundDownGreatest(x: nat, y: nat, m: nat)
    requires y > 0 && m % y == 0 && m <= x
    ensures m <= RoundDown(x, y)
  {
    var r := RoundDown(x, y);
    if m > r {
      MultipleGap(m, r, y);
    }
  }

  /** ... nor between x and `RoundUp(x, y)`. */
  lemma RoundUpLeast(x: nat, y: nat, m: nat)
    requires y > 0 && m % y == 0 && x <= m
    ensures RoundUp(x, y) <= m
  {
    var r := RoundUp(x, y);
    if m < r {
      MultipleGap(r, m, y);
    }
  }

  /** `pscnv_roundup` as written: `x + y - 1` is computed in uint64_t and
      wraps for x within y - 1 of 2^64. */
  function RoundUpAsWritten(x: u64, y: u32): (r: u64)
    requires y > 0
    ensures x + y - 1 < TWO_64 ==> r == RoundUp(x, y)
  {
    RoundDown((x + y - 1) % TWO_64, y)
  }

  /** A request for 2^64 - 0xfff bytes in 4 KiB pages rounds to 0 as
      written, which passes the size limit and makes `pscnv_mm_alloc`
      return success without allocating anything; rounded without the wrap
      it is 2^64, which the limit refuses. */
  lemma RoundUpWraps()
    ensures RoundUpAsWritten(TWO_64 - 0xfff, 0x1000) == 0
    ensures RoundUp(TWO_64 - 0xfff, 0x1000) == TWO_64 > SIZE_LIMIT
  {
    assert (TWO_64 - 0xfff + 0x1000 - 1) % TWO_64 == 0;
    assert (TWO_64 - 0xfff + 0x1000 - 1) / 0x1000 * 0x1000 == TWO_64;
  }

  /** A node of the tree: its `sentinel` (-1 for the start sentinel, 1 for
      the end sentinel, 0 otherwise), the range it covers and its type.
      Its identity `id` stands for the node's address. */
  datatype Node = Node(id: nat, sentinel: int, start: nat, size: nat, ty: nat)

  function End(n: Node): nat
  {
    n.start + n.size
  }

  /** `nodecmp`: -1, 0 or 1 as a orders before, with, or after b. */
  function NodeCmp(a: Node, b: Node): (c: int)
    ensures -1 <= c <= 1
  {
    if a.sentinel < b.sentinel then -1
    else if a.sentinel > b.sentinel then 1
    else if a.start < b.start then -1
    else if a.start > b.start then 1
    else 0
  }

  /** `nodecmp` is the lexicographic order on (sentinel, start): it is
      antisymmetric and transitive, and only nodes with the same key
      compare equal. */
  lemma NodeCmpOrder(a: Node, b: Node, c: Node)
    ensures NodeCmp(a, b) == -NodeCmp(b, a)
    ensures NodeCmp(a, b) == 0 <==> a.sentinel == b.sentinel && a.start == b.start
    ensures NodeCmp(a, b) == -1 <==> a.sentinel < b.sentinel || (a.sentinel == b.sentinel && a.start < b.start)
    ensures NodeCmp(a, b) <= 0 && NodeCmp(b, c) <= 0 ==> NodeCmp(a, c) <= 0
    ensures NodeCmp(a, b) == -1 && NodeCmp(b, c) == -1 ==> NodeCmp(a, c) == -1
  {
  }

  /** The page sizes of an allocator: small, large, and the granularity
      at which the two used types may meet. */
  datatype Sizes = Sizes(sp: nat, lp: nat, ts: nat)

  predicate SizesOk(z: Sizes)
  {
    0 < z.sp < TWO_32 && 0 < z.lp < TWO_32 && 0 < z.ts < TWO_32
  }

  /** The page size of a request or a gap type: large with the LP bit. */
  function PageSize(z: Sizes, flags: nat): nat
  {
    if Bit(flags, LP) then z.lp else z.sp
  }

  /** `pscnv_mm_getfree`: the part of node n usable by an allocation of
      gap type ty, given its neighbours in the tree. A side whose neighbour
      has another used type is rounded to the type granularity, then both
      sides to the page size; an empty result is (s, s). */
  function GetFree(z: Sizes, prev: Node, n: Node, next: Node, ty: nat): (w: (nat, nat))
    requires SizesOk(z)
    ensures var p := PageSize(z, ty);
      w.0 <= w.1 && w.0 % p == 0 && w.1 % p == 0
    ensures w.0 < w.1 ==> n.start <= w.0 && w.1 <= End(n)
  {
    var s0 := if prev.ty != ty % 2 then RoundUp(n.start, z.ts) else n.start;
    var e0 := if next.ty != ty % 2 then RoundDown(End(n), z.ts) else End(n);
    var p := PageSize(z, ty);
    var s := RoundUp(s0, p);
    var e := RoundDown(e0, p);
    if e < s then (s, s) else (s, e)
  }

  /** The free part is the largest: any range inside the node whose ends
      are page aligned, and aligned to the type granularity where the
      neighbour has another used type, lies within it. */
  lemma GetFreeLargest(z: Sizes, prev: Node, n: Node, next: Node, ty: nat, a: nat, b: nat)
    requires SizesOk(z) && n.start <= a < b <= End(n)
    requires a % PageSize(z, ty) == 0 && b % PageSize(z, ty) == 0
    requires prev.ty != ty % 2 ==> a % z.ts == 0
    requires next.ty != ty % 2 ==> b % z.ts == 0
    ensures var w := GetFree(z, prev, n, next, ty);
      w.0 <= a && b <= w.1
  {
    var s0 := if prev.ty != ty % 2 then RoundUp(n.start, z.ts) else n.start;
    var e0 := if next.ty != ty % 2 then RoundDown(End(n), z.ts) else End(n);
    var p := PageSize(z, ty);
    if prev.ty != ty % 2 {
      RoundUpLeast(n.start, z.ts, a);
    }
    if next.ty != ty % 2 {
      RoundDownGreatest(End(n), z.ts, b);
    }
    RoundUpLeast(s0, p, a);
    RoundDownGreatest(e0, p, b);
  }

  /** Node k of the in-order sequence is in place: its identity is below
      the next fresh one, its type is one of the three, it is no sentinel
      unless it is at an end, it ends where its successor starts, and it
      is not free together with its successor. */
  ghost predicate NodeOk(ns: seq<Node>, k: nat, nextId: nat)
    requires k < |ns|
  {
    ns[k].id < nextId && ns[k].ty <= FREE &&
    (0 < k < |ns| - 1 ==> ns[k].sentinel == 0) &&
    (k + 1 < |ns| ==> End(ns[k]) == ns[k + 1].start && !(ns[k].ty == FREE && ns[k + 1].ty == FREE))
  }

  ghost predicate Distinct(ns: seq<Node>)
  {
    forall j, k :: 0 <= j < k < |ns| ==> ns[j].id != ns[k].id
  }

  /** The tree of an allocator: the start and end sentinels, empty and of
      type USED0, at the two ends, every node in place, no identity twice. */
  ghost predicate Wf(ns: seq<Node>, nextId: nat)
  {
    |ns| >= 2 &&
    ns[0].sentinel == -1 && ns[0].size == 0 && ns[0].ty == USED0 &&
    ns[|ns| - 1].sentinel == 1 && ns[|ns| - 1].size == 0 && ns[|ns| - 1].ty == USED0 &&
    (forall k :: 0 <= k < |ns| ==> NodeOk(ns, k, nextId)) &&
    Distinct(ns)
  }

  /** The nodes that are not free. */
  ghost function Used(ns: seq<Node>): set<Node>
  {
    set k | 0 <= k < |ns| && ns[k].ty != FREE :: ns[k]
  }

  lemma UsedConcat(a: seq<Node>, b: seq<Node>)
    ensures Used(a + b) == Used(a) + Used(b)
  {
    var r := a + b;
    forall n | n in Used(r)
      ensures n in Used(a) + Used(b)
    {
      var k :| 0 <= k < |r| && r[k].ty != FREE && r[k] == n;
      if k < |a| {
        assert a[k] == n;
      } else {
        assert b[k - |a|] == n;
      }
    }
    forall n | n in Used(b)
      ensures n in Used(r)
    {
      var k :| 0 <= k < |b| && b[k].ty != FREE && b[k] == n;
      assert r[k + |a|] == n;
    }
    forall n | n in Used(a)
      ensures n in Used(r)
    {
      var k :| 0 <= k < |a| && a[k].ty != FREE && a[k] == n;
      assert r[k] == n;
    }
  }

  /** Where the nodes of a splice come from. */
  lemma SpliceIndex(ns: seq<Node>, a: nat, c: nat, mid: seq<Node>)
    requires a <= c <= |ns|
    ensures var r := ns[..a] + mid + ns[c..];
      |r| == |ns| - (c - a) + |mid| &&
      (forall k :: 0 <= k < a ==> r[k] == ns[k]) &&
      (forall k :: 0 <= k < |mid| ==> r[a + k] == mid[k]) &&
      (forall k :: c <= k < |ns| ==> r[k - c + a + |mid|] == ns[k])
  {
  }

  /** Replacing the interior nodes a..c-1 by mid keeps the tree in shape
      when mid tiles the same stretch, keeps free nodes apart, and takes
      its identities from node p or from fresh ones. */
  lemma SpliceWf(ns: seq<Node>, nid: nat, a: nat, c: nat, p: nat, mid: seq<Node>, nid2: nat)
    requires Wf(ns, nid) && 0 < a <= p < c < |ns| && nid <= nid2 && |mid| > 0
    requires mid[0].start == ns[a].start && End(mid[|mid| - 1]) == End(ns[c - 1])
    requires forall k :: 0 <= k < |mid| ==> mid[k].sentinel == 0 && mid[k].ty <= FREE && mid[k].id < nid2
    requires forall k :: 0 <= k < |mid| - 1 ==> End(mid[k]) == mid[k + 1].start && !(mid[k].ty == FREE && mid[k + 1].ty == FREE)
    requires mid[0].ty == FREE ==> ns[a - 1].ty != FREE
    requires mid[|mid| - 1].ty == FREE ==> ns[c].ty != FREE
    requires forall k :: 0 <= k < |mid| ==> mid[k].id >= nid || mid[k].id == ns[p].id
    requires Distinct(mid)
    ensures Wf(ns[..a] + mid + ns[c..], nid2)
  {
    SpliceNodeOk(ns, nid, a, c, mid, nid2);
    SpliceDistinct(ns, nid, a, c, p, mid);
  }

  lemma SpliceNodeOk(ns: seq<Node>, nid: nat, a: nat, c: nat, mid: seq<Node>, nid2: nat)
    requires Wf(ns, nid) && 0 < a < c < |ns| && nid <= nid2 && |mid| > 0
    requires mid[0].start == ns[a].start && End(mid[|mid| - 1]) == End(ns[c - 1])
    requires forall k :: 0 <= k < |mid| ==> mid[k].sentinel == 0 && mid[k].ty <= FREE && mid[k].id < nid2
    requires forall k :: 0 <= k < |mid| - 1 ==> End(mid[k]) == mid[k + 1].start && !(mid[k].ty == FREE && mid[k + 1].ty == FREE)
    requires mid[0].ty == FREE ==> ns[a - 1].ty != FREE
    requires mid[|mid| - 1].ty == FREE ==> ns[c].ty != FREE
    ensures var r := ns[..a] + mid + ns[c..];
      forall k :: 0 <= k < |r| ==> NodeOk(r, k, nid2)
  {
    var r := ns[..a] + mid + ns[c..];
    SpliceIndex(ns, a, c, mid);
    assert NodeOk(ns, c - 1, nid) && NodeOk(ns, a - 1, nid);
    forall k | 0 <= k < |r|
      ensures NodeOk(r, k, nid2)
    {
      if k < a - 1 {
        assert NodeOk(ns, k, nid);
      } else if k == a - 1 {
        assert r[k + 1] == mid[0];
      } else if k < a + |mid| - 1 {
        assert r[k] == mid[k - a] && r[k + 1] == mid[k - a + 1];
      } else if k == a + |mid| - 1 {
        assert r[k] == mid[|mid| - 1] && r[k + 1] == ns[c];
      } else {
        var q := k - a - |mid| + c;
        assert r[k] == ns[q] && NodeOk(ns, q, nid);
        if q + 1 < |ns| {
          assert r[k + 1] == ns[q + 1];
        }
      }
    }
  }

  lemma SpliceDistinct(ns: seq<Node>, nid: nat, a: nat, c: nat, p: nat, mid: seq<Node>)
    requires Wf(ns, nid) && 0 < a <= p < c < |ns|
    requires forall k :: 0 <= k < |mid| ==> mid[k].id >= nid || mid[k].id == ns[p].id
    requires Distinct(mid)
    ensures Distinct(ns[..a] + mid + ns[c..])
  {
    var r := ns[..a] + mid + ns[c..];
    SpliceIndex(ns, a, c, mid);
    forall j, k | 0 <= j < k < |r|
      ensures r[j].id != r[k].id
    {
      var inj := a <= j < a + |mid|;
      var ink := a <= k < a + |mid|;
      var qj := if j < a then j else j - a - |mid| + c;
      var qk := if k < a then k else k - a - |mid| + c;
      if inj && ink {
        assert r[j] == mid[j - a] && r[k] == mid[k - a];
      } else if inj {
        assert r[j] == mid[j - a] && r[k] == ns[qk] && NodeOk(ns, qk, nid);
      } else if ink {
        assert r[j] == ns[qj] && r[k] == mid[k - a] && NodeOk(ns, qj, nid);
      } else {
        assert r[j] == ns[qj] && r[k] == ns[qk];
      }
    }
  }

  /** The nodes after `pscnv_mm_free_node` on interior node i: it becomes
      free and takes in its predecessor if that is free (its start moves
      back) and then its successor if that is free. */
  function Freed(ns: seq<Node>, i: nat): (r: seq<Node>)
    requires 0 < i < |ns| - 1
  {
    var prevFree := ns[i - 1].ty == FREE;
    var nextFree := ns[i + 1].ty == FREE;
    var a := if prevFree then i - 1 else i;
    var c := if nextFree then i + 2 else i + 1;
    var n1 := ns[i].(ty := FREE);
    var n2 := if prevFree then n1.(start := ns[i - 1].start, size := n1.size + ns[i - 1].size) else n1;
    var n3 := if nextFree then n2.(size := n2.size + ns[i + 1].size) else n2;
    ns[..a] + [n3] + ns[c..]
  }

  /** Freeing keeps the tree in shape, and the freed node covers what it
      and the neighbours it took in covered. */
  lemma FreedWf(ns: seq<Node>, nid: nat, i: nat)
    requires Wf(ns, nid) && 0 < i < |ns| - 1
    ensures Wf(Freed(ns, i), nid)
  {
    var a := if ns[i - 1].ty == FREE then i - 1 else i;
    var c := if ns[i + 1].ty == FREE then i + 2 else i + 1;
    var n := Freed(ns, i)[a];
    assert Freed(ns, i) == ns[..a] + [n] + ns[c..];
    assert NodeOk(ns, i - 1, nid) && NodeOk(ns, i, nid) && NodeOk(ns, i + 1, nid);
    if a < i {
      assert NodeOk(ns, i - 2, nid);
    }
    if c > i + 1 {
      assert NodeOk(ns, i + 2, nid);
    }
    SpliceWf(ns, nid, a, c, i, [n], nid);
  }

  /** Freeing removes exactly node i from the used nodes. */
  lemma FreedUsed(ns: seq<Node>, nid: nat, i: nat)
    requires Wf(ns, nid) && 0 < i < |ns| - 1
    ensures Used(Freed(ns, i)) == Used(ns) - {ns[i]}
  {
    var a := if ns[i - 1].ty == FREE then i - 1 else i;
    var c := if ns[i + 1].ty == FREE then i + 2 else i + 1;
    var n := Freed(ns, i)[a];
    assert Freed(ns, i) == ns[..a] + [n] + ns[c..];
    UsedSplice(ns, a, c, [n]);
    UsedSplice(ns, a, c, ns[a..c]);
    assert ns[..a] + ns[a..c] + ns[c..] == ns;
    assert Used([n]) == {} by {
      UsedConcat([], [n]);
    }
    UsedMerged(ns, a, c, i);
    UsedOutside(ns, nid, a, c, i);
  }

  /** The used nodes of a splice are those of its three parts. */
  lemma UsedSplice(ns: seq<Node>, a: nat, c: nat, mid: seq<Node>)
    requires a <= c <= |ns|
    ensures Used(ns[..a] + mid + ns[c..]) == Used(ns[..a]) + Used(mid) + Used(ns[c..])
  {
    UsedConcat(ns[..a] + mid, ns[c..]);
    UsedConcat(ns[..a], mid);
  }

  /** Of nodes a..c-1, only node i may be used. */
  lemma UsedMerged(ns: seq<Node>, a: nat, c: nat, i: nat)
    requires a <= i < c <= |ns| && a + 1 >= i && c <= i + 2
    requires a < i ==> ns[a].ty == FREE
    requires c > i + 1 ==> ns[i + 1].ty == FREE
    ensures Used(ns[a..c]) <= {ns[i]}
  {
    forall n | n in Used(ns[a..c])
      ensures n == ns[i]
    {
      var k :| 0 <= k < c - a && ns[a..c][k].ty != FREE && ns[a..c][k] == n;
      assert ns[a + k] == n;
    }
  }

  /** Node i is used nowhere outside a..c-1. */
  lemma UsedOutside(ns: seq<Node>, nid: nat, a: nat, c: nat, i: nat)
    requires Wf(ns, nid) && a <= i < c <= |ns|
    ensures ns[i] !in Used(ns[..a]) && ns[i] !in Used(ns[c..])
  {
    forall k | 0 <= k < |ns| && k != i
      ensures ns[k] != ns[i]
    {
      if k < i {
        assert ns[k].id != ns[i].id;
      } else {
        assert ns[i].id != ns[k].id;
      }
    }
  }

  /** With no free neighbour, freeing only changes the node's type. */
  lemma FreedAlone(ns: seq<Node>, i: nat)
    requires 0 < i < |ns| - 1 && ns[i - 1].ty != FREE && ns[i + 1].ty != FREE
    ensures Freed(ns, i) == ns[i := ns[i].(ty := FREE)]
  {
  }

  /** The link invariant of an allocator: prev and next pointers only
      name identities handed out so far, and a free node has neither. */
  ghost predicate Links(ns: seq<Node>, prevOf: map<nat, nat>, nextOf: map<nat, nat>, nextId: nat)
  {
    (forall x :: x in prevOf ==> x < nextId) && (forall x :: x in nextOf ==> x < nextId) &&
    (forall k :: 0 <= k < |ns| && ns[k].ty == FREE ==> ns[k].id !in prevOf && ns[k].id !in nextOf)
  }

  /** Freeing node i and clearing its links keeps the link invariant. */
  lemma FreedLinks(ns: seq<Node>, prevOf: map<nat, nat>, nextOf: map<nat, nat>, nid: nat, i: nat, prev2: map<nat, nat>, next2: map<nat, nat>)
    requires Links(ns, prevOf, nextOf, nid) && 0 < i < |ns| - 1
    requires prev2.Keys <= prevOf.Keys - {ns[i].id} && next2.Keys <= nextOf.Keys - {ns[i].id}
    ensures Links(Freed(ns, i), prev2, next2, nid)
  {
    var a := if ns[i - 1].ty == FREE then i - 1 else i;
    var c := if ns[i + 1].ty == FREE then i + 2 else i + 1;
    var r := Freed(ns, i);
    assert r == ns[..a] + [r[a]] + ns[c..] && r[a].id == ns[i].id;
    SpliceIndex(ns, a, c, [r[a]]);
    forall k | 0 <= k < |r| && r[k].ty == FREE
      ensures r[k].id !in prev2 && r[k].id !in next2
    {
      if k < a {
        assert r[k] == ns[k];
      } else if k > a {
        assert r[k] == ns[k - a - 1 + c];
      }
    }
  }

  /** The window `pscnv_mm_alloc_single` may use in interior node i: the
      free part for the request's gap type (`flags & TMASK`), clamped to
      [start, end), empty as (s, s). */
  function Window(z: Sizes, ns: seq<Node>, i: nat, flags: nat, start: nat, end: nat): (w: (nat, nat))
    requires SizesOk(z) && 0 < i < |ns| - 1
    ensures w.0 <= w.1
    ensures w.0 < w.1 ==> ns[i].start <= w.0 && w.1 <= End(ns[i]) && start <= w.0 && w.1 <= end
  {
    var f := GetFree(z, ns[i - 1], ns[i], ns[i + 1], flags % 4);
    var s := if start > f.0 then start else f.0;
    var e := if end < f.1 then end else f.1;
    if e < s then (s, s) else (s, e)
  }

  /** `minsz`: any non-empty piece may do for a fragmentable request. */
  function MinSize(size: nat, flags: nat): nat
  {
    if Bit(flags, FRAGOK) then 1 else size
  }

  /** Node i is free and its window holds at least the minimum size. */
  predicate Fits(z: Sizes, ns: seq<Node>, i: nat, size: nat, flags: nat, start: nat, end: nat)
    requires SizesOk(z) && 0 < i < |ns| - 1
  {
    var w := Window(z, ns, i, flags, start, end);
    ns[i].ty == FREE && w.1 - w.0 >= MinSize(size, flags)
  }

  /** The in-order search of `pscnv_mm_alloc_single`: the first interior
      node from k on that fits. */
  function FirstFit(z: Sizes, ns: seq<Node>, k: nat, size: nat, flags: nat, start: nat, end: nat): (r: Option<nat>)
    requires SizesOk(z) && 0 < k && |ns| >= 2 && k <= |ns| - 1
    ensures r.Some? ==> k <= r.value < |ns| - 1 && Fits(z, ns, r.value, size, flags, start, end)
    decreases |ns| - k
  {
    if k == |ns| - 1 then None
    else if Fits(z, ns, k, size, flags, start, end) then Some(k)
    else FirstFit(z, ns, k + 1, size, flags, start, end)
  }

  /** The search with FROMBACK, in reverse order: the last interior node
      below k that fits. */
  function LastFit(z: Sizes, ns: seq<Node>, k: nat, size: nat, flags: nat, start: nat, end: nat): (r: Option<nat>)
    requires SizesOk(z) && 0 < k <= |ns| - 1
    ensures r.Some? ==> 0 < r.value < k && Fits(z, ns, r.value, size, flags, start, end)
  {
    if k == 1 then None
    else if Fits(z, ns, k - 1, size, flags, start, end) then Some(k - 1)
    else LastFit(z, ns, k - 1, size, flags, start, end)
  }

  /** The node the search picks. */
  function Fit(z: Sizes, ns: seq<Node>, size: nat, flags: nat, start: nat, end: nat): (r: Option<nat>)
    requires SizesOk(z) && |ns| >= 2
    ensures r.Some? ==> 0 < r.value < |ns| - 1 && Fits(z, ns, r.value, size, flags, start, end)
  {
    if Bit(flags, FROMBACK) then LastFit(z, ns, |ns| - 1, size, flags, start, end)
    else FirstFit(z, ns, 1, size, flags, start, end)
  }

  /** The search takes the first node that fits (the last with
      FROMBACK), and fails only when no node fits. */
  lemma {:induction false} FirstFitSpec(z: Sizes, ns: seq<Node>, k: nat, size: nat, flags: nat, start: nat, end: nat)
    requires SizesOk(z) && 0 < k && |ns| >= 2 && k <= |ns| - 1
    ensures var r := FirstFit(z, ns, k, size, flags, start, end);
      r.Some? ==> forall i :: k <= i < r.value ==> !Fits(z, ns, i, size, flags, start, end)
    ensures FirstFit(z, ns, k, size, flags, start, end).None? <==>
      forall i :: k <= i < |ns| - 1 ==> !Fits(z, ns, i, size, flags, start, end)
    decreases |ns| - k
  {
    if k < |ns| - 1 && !Fits(z, ns, k, size, flags, start, end) {
      FirstFitSpec(z, ns, k + 1, size, flags, start, end);
    }
  }

  lemma {:induction false} LastFitSpec(z: Sizes, ns: seq<Node>, k: nat, size: nat, flags: nat, start: nat, end: nat)
    requires SizesOk(z) && 0 < k <= |ns| - 1
    ensures var r := LastFit(z, ns, k, size, flags, start, end);
      r.Some? ==> forall i :: r.value < i < k ==> !Fits(z, ns, i, size, flags, start, end)
    ensures LastFit(z, ns, k, size, flags, start, end).None? <==>
      forall i :: 0 < i < k ==> !Fits(z, ns, i, size, flags, start, end)
  {
    if k > 1 && !Fits(z, ns, k - 1, size, flags, start, end) {
      LastFitSpec(z, ns, k - 1, size, flags, start, end);
    }
  }

  /** The part of the window taken: all of it, or when it is larger than
      the request, its first size bytes (its last with FROMBACK). */
  function Piece(w: (nat, nat), size: nat, back: bool): (p: (nat, nat))
    requires w.0 <= w.1
    ensures w.0 <= p.0 <= p.1 <= w.1 && p.1 - p.0 == Min(w.1 - w.0, size)
  {
    if w.1 - w.0 > size then
      if back then (w.1 - size, w.1) else (w.0, w.0 + size)
    else w
  }

  /** `pscnv_mm_alloc_single`'s split of free node n around [s, e): a free
      node before s if s is past its start, n itself with [s, e) and the
      new type, a free node after e if e is before its end; the new nodes
      take the next fresh identities. */
  function Split(n: Node, s: nat, e: nat, ty: nat, nid: nat): (pieces: seq<Node>)
    requires n.start <= s <= e <= End(n)
  {
    var left := if s != n.start then [Node(nid, 0, n.start, s - n.start, FREE)] else [];
    var rid := if s != n.start then nid + 1 else nid;
    var right := if e != End(n) then [Node(rid, 0, e, End(n) - e, FREE)] else [];
    left + [n.(start := s, size := e - s, ty := ty)] + right
  }

  /** The split covers exactly what the node covered: the pieces tile it,
      the used one is [s, e), and the others are free. */
  lemma SplitTiles(n: Node, s: nat, e: nat, ty: nat, nid: nat)
    requires n.start <= s <= e <= End(n)
    ensures var p := Split(n, s, e, ty, nid);
      var at := if s != n.start then 1 else 0;
      1 <= |p| <= 3 && at < |p| && p[0].start == n.start && End(p[|p| - 1]) == End(n) &&
      (forall k :: 0 <= k < |p| - 1 ==> End(p[k]) == p[k + 1].start) &&
      p[at] == n.(start := s, size := e - s, ty := ty) &&
      (forall k :: 0 <= k < |p| && k != at ==> p[k].ty == FREE && p[k].id >= nid && p[k].sentinel == 0)
  {
  }

  /** Splitting a free interior node keeps the tree in shape ... */
  lemma SplitWf(ns: seq<Node>, nid: nat, i: nat, s: nat, e: nat, ty: nat)
    requires Wf(ns, nid) && 0 < i < |ns| - 1 && ns[i].ty == FREE && ty <= USED1
    requires ns[i].start <= s < e <= End(ns[i])
    ensures var p := Split(ns[i], s, e, ty, nid);
      Wf(ns[..i] + p + ns[i + 1..], nid + |p| - 1)
  {
    var p := Split(ns[i], s, e, ty, nid);
    SplitTiles(ns[i], s, e, ty, nid);
    assert NodeOk(ns, i - 1, nid) && NodeOk(ns, i, nid);
    SpliceWf(ns, nid, i, i + 1, i, p, nid + |p| - 1);
  }

  /** ... and adds the used piece, and only it, to the used nodes. */
  lemma SplitUsed(ns: seq<Node>, nid: nat, i: nat, s: nat, e: nat, ty: nat)
    requires Wf(ns, nid) && 0 < i < |ns| - 1 && ns[i].ty == FREE && ty <= USED1
    requires ns[i].start <= s < e <= End(ns[i])
    ensures var u := ns[i].(start := s, size := e - s, ty := ty);
      Used(ns[..i] + Split(ns[i], s, e, ty, nid) + ns[i + 1..]) == Used(ns) + {u} && u !in Used(ns)
  {
    var p := Split(ns[i], s, e, ty, nid);
    var u := ns[i].(start := s, size := e - s, ty := ty);
    SplitTiles(ns[i], s, e, ty, nid);
    UsedSplice(ns, i, i + 1, p);
    UsedSplice(ns, i, i + 1, [ns[i]]);
    assert ns[..i] + [ns[i]] + ns[i + 1..] == ns;
    assert Used([ns[i]]) == {} by {
      UsedConcat([], [ns[i]]);
    }
    SplitPieceUsed(ns[i], s, e, ty, nid);
    UsedOutside(ns, nid, i, i + 1, i);
    forall k | 0 <= k < |ns|
      ensures ns[k] != u
    {
      if k < i {
        assert ns[k].id != ns[i].id;
      } else if k > i {
        assert ns[i].id != ns[k].id;
      }
    }
  }

  lemma SplitPieceUsed(n: Node, s: nat, e: nat, ty: nat, nid: nat)
    requires n.start <= s <= e <= End(n) && ty <= USED1
    ensures Used(Split(n, s, e, ty, nid)) == {n.(start := s, size := e - s, ty := ty)}
  {
    var p := Split(n, s, e, ty, nid);
    SplitTiles(n, s, e, ty, nid);
    var at := if s != n.start then 1 else 0;
    UsedMerged(p, 0, |p|, at);
    assert p[0..|p|] == p;
    assert p[at] in Used(p);
  }

  /** The pointers after `pscnv_mm_free_node` on node x: the prev
      pointer of the node x's next pointer names is cleared, then x's own
      next and prev pointers. Other pointers keep their targets, and
      clearing pointers x does not have changes nothing. */
  function Unlink(prevOf: map<nat, nat>, nextOf: map<nat, nat>, x: nat): (r: (map<nat, nat>, map<nat, nat>))
    ensures r.0.Keys == prevOf.Keys - {x} - (if x in nextOf then {nextOf[x]} else {})
    ensures r.1.Keys == nextOf.Keys - {x}
    ensures forall y :: y in r.0 ==> r.0[y] == prevOf[y]
    ensures forall y :: y in r.1 ==> r.1[y] == nextOf[y]
    ensures x !in prevOf && x !in nextOf ==> r == (prevOf, nextOf)
  {
    var p1 := if x in nextOf then prevOf - {nextOf[x]} else prevOf;
    var n1 := if x in nextOf then nextOf - {x} else nextOf;
    (if x in p1 then p1 - {x} else p1, n1)
  }

  /** `pscnv_mm_free_node` keeps the invariant, and takes node i, and
      only it, out of the used nodes. */
  lemma FreeStep(z: Sizes, ns: seq<Node>, prevOf: map<nat, nat>, nextOf: map<nat, nat>, nid: nat, i: nat)
    requires Good(z, ns, prevOf, nextOf, nid) && 0 < i < |ns| - 1
    ensures var u := Unlink(prevOf, nextOf, ns[i].id);
      Good(z, Freed(ns, i), u.0, u.1, nid)
    ensures Used(Freed(ns, i)) == Used(ns) - {ns[i]}
  {
    var u := Unlink(prevOf, nextOf, ns[i].id);
    FreedWf(ns, nid, i);
    FreedUsed(ns, nid, i);
    FreedLinks(ns, prevOf, nextOf, nid, i, u.0, u.1);
  }

  /** Giving free interior node i a used type keeps the invariant. */
  lemma Retyped(z: Sizes, ns: seq<Node>, prevOf: map<nat, nat>, nextOf: map<nat, nat>, nid: nat, i: nat, ty: nat)
    requires Good(z, ns, prevOf, nextOf, nid) && 0 < i < |ns| - 1 && ns[i].ty == FREE && ty <= USED1
    ensures Good(z, ns[i := ns[i].(ty := ty)], prevOf, nextOf, nid)
    ensures ns[i - 1].ty != FREE && ns[i + 1].ty != FREE
  {
    var r := ns[i := ns[i].(ty := ty)];
    assert NodeOk(ns, i - 1, nid) && NodeOk(ns, i, nid);
    forall k | 0 <= k < |r|
      ensures NodeOk(r, k, nid)
    {
      assert NodeOk(ns, k, nid);
    }
    forall j, k | 0 <= j < k < |r|
      ensures r[j].id != r[k].id
    {
      assert ns[j].id != ns[k].id;
    }
  }

  /** `PSCNV_RB_INSERT` of a node split off interior node j: the pair
      takes j's place in the order. */
  function Insert(ns: seq<Node>, j: nat, pair: seq<Node>): (r: seq<Node>)
    requires j < |ns| && |pair| == 2
    ensures |r| == |ns| + 1 && r[j] == pair[0] && r[j + 1] == pair[1]
  {
    ns[..j] + pair + ns[j + 1..]
  }

  /** Replacing used interior node j by two used nodes that tile it, one
      of them j itself and the other fresh, keeps the invariant. */
  lemma InsertPair(z: Sizes, ns: seq<Node>, prevOf: map<nat, nat>, nextOf: map<nat, nat>, nid: nat, j: nat, pair: seq<Node>)
    requires Good(z, ns, prevOf, nextOf, nid) && 0 < j < |ns| - 1 && |pair| == 2
    requires pair[0].start == ns[j].start && End(pair[0]) == pair[1].start && End(pair[1]) == End(ns[j])
    requires forall k :: 0 <= k < 2 ==> pair[k].sentinel == 0 && pair[k].ty <= USED1
    requires (pair[0].id == ns[j].id && pair[1].id == nid) || (pair[0].id == nid && pair[1].id == ns[j].id)
    ensures Good(z, Insert(ns, j, pair), prevOf, nextOf, nid + 1)
  {
    var r := Insert(ns, j, pair);
    assert NodeOk(ns, j, nid);
    SpliceWf(ns, nid, j, j + 1, j, pair, nid + 1);
    forall k | 0 <= k < |r| && r[k].ty == FREE
      ensures r[k].id !in prevOf && r[k].id !in nextOf
    {
      if k < j {
        assert r[k] == ns[k];
      } else {
        assert r[k] == ns[k - 1];
      }
    }
  }

  /** Freeing the left node of an inserted pair only frees it, when the
      node before is not free and the right node is used ... */
  lemma FreedInsertLeft(ns: seq<Node>, j: nat, pair: seq<Node>)
    requires 0 < j < |ns| - 1 && |pair| == 2 && ns[j - 1].ty != FREE && pair[1].ty != FREE
    ensures Freed(Insert(ns, j, pair), j) == Insert(ns, j, [pair[0].(ty := FREE), pair[1]])
  {
    FreedAlone(Insert(ns, j, pair), j);
  }

  /** ... and likewise the right node, when the node after is not free. */
  lemma FreedInsertRight(ns: seq<Node>, j: nat, pair: seq<Node>)
    requires 0 < j < |ns| - 1 && |pair| == 2 && ns[j + 1].ty != FREE && pair[0].ty != FREE
    ensures Freed(Insert(ns, j, pair), j + 1) == Insert(ns, j, [pair[0], pair[1].(ty := FREE)])
  {
    FreedAlone(Insert(ns, j, pair), j + 1);
  }

  /** The steps of the split of node i around [s, e), as
      `pscnv_mm_alloc_single` takes them, end in `Split`: the type set,
      then the left piece split off, then the right one. */
  lemma SplitByInserts(ns: seq<Node>, i: nat, s: nat, e: nat, ty: nat, nid: nat)
    requires 0 < i < |ns| - 1 && ns[i].start <= s <= e <= End(ns[i])
    ensures var u := ns[i].(ty := ty);
      var n1 := u.(start := s, size := End(ns[i]) - s);
      var lsp := Node(nid, 0, ns[i].start, s - ns[i].start, FREE);
      var target := ns[..i] + Split(ns[i], s, e, ty, nid) + ns[i + 1..];
      (s != ns[i].start && e != End(ns[i]) ==>
        Insert(Insert(ns[i := u], i, [lsp, n1]), i + 1, [n1.(size := e - n1.start), Node(nid + 1, 0, e, End(n1) - e, FREE)]) == target) &&
      (s != ns[i].start && e == End(ns[i]) ==> Insert(ns[i := u], i, [lsp, n1]) == target) &&
      (s == ns[i].start && e != End(ns[i]) ==>
        Insert(ns[i := u], i, [u.(size := e - u.start), Node(nid, 0, e, End(u) - e, FREE)]) == target) &&
      (s == ns[i].start && e == End(ns[i]) ==> ns[i := u] == target)
  {
  }

  /** The left cut of the split: when s is past the start of node i, a
      free node covering [start, s) with identity nid is inserted before
      it and the node keeps [s, end). */
  function CutLeft(ns: seq<Node>, i: nat, s: nat, nid: nat): (r: seq<Node>)
    requires 0 < i < |ns| - 1 && ns[i].start <= s <= End(ns[i])
    ensures |r| == |ns| + (if s == ns[i].start then 0 else 1)
  {
    if s == ns[i].start then ns
    else Insert(ns, i, [Node(nid, 0, ns[i].start, s - ns[i].start, FREE), ns[i].(start := s, size := End(ns[i]) - s)])
  }

  /** The right cut: when e is before the end of node j, a free node
      covering [e, end) with identity nid is inserted after it and the
      node keeps [start, e). */
  function CutRight(ns: seq<Node>, j: nat, e: nat, nid: nat): (r: seq<Node>)
    requires 0 < j < |ns| - 1 && ns[j].start <= e <= End(ns[j])
    ensures |r| == |ns| + (if e == End(ns[j]) then 0 else 1)
  {
    if e == End(ns[j]) then ns
    else Insert(ns, j, [ns[j].(size := e - ns[j].start), Node(nid, 0, e, End(ns[j]) - e, FREE)])
  }

  /** The left cut done as the source does it: the new node, of type
      USED0 as allocated, is inserted before used node j and freed; it has
      no links, being fresh, and as its neighbours are used, freeing it
      only sets its type. */
  lemma CutLeftSteps(z: Sizes, ns: seq<Node>, prevOf: map<nat, nat>, nextOf: map<nat, nat>, nid: nat, j: nat, s: nat)
    requires Good(z, ns, prevOf, nextOf, nid) && 0 < j < |ns| - 1 && ns[j].ty != FREE && ns[j - 1].ty != FREE
    requires ns[j].start < s <= End(ns[j])
    ensures var pair := [Node(nid, 0, ns[j].start, s - ns[j].start, USED0), ns[j].(start := s, size := End(ns[j]) - s)];
      var r := Insert(ns, j, pair);
      Good(z, r, prevOf, nextOf, nid + 1) && 0 < j < |r| - 1 && r[j].id == nid && nid !in prevOf && nid !in nextOf &&
      Freed(r, j) == CutLeft(ns, j, s, nid)
  {
    var n := ns[j];
    assert NodeOk(ns, j, nid);
    var pair := [Node(nid, 0, n.start, s - n.start, USED0), n.(start := s, size := End(n) - s)];
    InsertPair(z, ns, prevOf, nextOf, nid, j, pair);
    CutLeftFreed(ns, j, s, nid);
  }

  /** Freeing the new left node of the pair gives the left cut. */
  lemma CutLeftFreed(ns: seq<Node>, j: nat, s: nat, nid: nat)
    requires 0 < j < |ns| - 1 && ns[j].ty != FREE && ns[j - 1].ty != FREE && ns[j].start < s <= End(ns[j])
    ensures var pair := [Node(nid, 0, ns[j].start, s - ns[j].start, USED0), ns[j].(start := s, size := End(ns[j]) - s)];
      Freed(Insert(ns, j, pair), j) == CutLeft(ns, j, s, nid)
  {
    var n := ns[j];
    var pair := [Node(nid, 0, n.start, s - n.start, USED0), n.(start := s, size := End(n) - s)];
    FreedInsertLeft(ns, j, pair);
    assert [pair[0].(ty := FREE), pair[1]] == [Node(nid, 0, n.start, s - n.start, FREE), pair[1]];
  }

  /** The right cut done as the source does it, after used node j. */
  lemma CutRightSteps(z: Sizes, ns: seq<Node>, prevOf: map<nat, nat>, nextOf: map<nat, nat>, nid: nat, j: nat, e: nat)
    requires Good(z, ns, prevOf, nextOf, nid) && 0 < j < |ns| - 1 && ns[j].ty != FREE && ns[j + 1].ty != FREE
    requires ns[j].start <= e < End(ns[j])
    ensures var pair := [ns[j].(size := e - ns[j].start), Node(nid, 0, e, End(ns[j]) - e, USED0)];
      var r := Insert(ns, j, pair);
      Good(z, r, prevOf, nextOf, nid + 1) && 0 < j + 1 < |r| - 1 && r[j + 1].id == nid && nid !in prevOf && nid !in nextOf &&
      Freed(r, j + 1) == CutRight(ns, j, e, nid)
  {
    var n := ns[j];
    assert NodeOk(ns, j, nid);
    var pair := [n.(size := e - n.start), Node(nid, 0, e, End(n) - e, USED0)];
    InsertPair(z, ns, prevOf, nextOf, nid, j, pair);
    CutRightFreed(ns, j, e, nid);
  }

  /** Freeing the new right node of the pair gives the right cut. */
  lemma CutRightFreed(ns: seq<Node>, j: nat, e: nat, nid: nat)
    requires 0 < j < |ns| - 1 && ns[j].ty != FREE && ns[j + 1].ty != FREE && ns[j].start <= e < End(ns[j])
    ensures var pair := [ns[j].(size := e - ns[j].start), Node(nid, 0, e, End(ns[j]) - e, USED0)];
      Freed(Insert(ns, j, pair), j + 1) == CutRight(ns, j, e, nid)
  {
    var n := ns[j];
    var pair := [n.(size := e - n.start), Node(nid, 0, e, End(n) - e, USED0)];
    FreedInsertRight(ns, j, pair);
    assert [pair[0], pair[1].(ty := FREE)] == [pair[0], Node(nid, 0, e, End(n) - e, FREE)];
  }

  /** The cuts of `pscnv_mm_alloc_single`, once the node has its type:
      the left cut, then the right cut, end in `Split`, with the node in
      its place among the pieces. */
  lemma SplitByCuts(ns: seq<Node>, i: nat, s: nat, e: nat, nid: nat)
    requires 0 < i < |ns| - 1 && ns[i].start <= s < e <= End(ns[i])
    ensures var l := CutLeft(ns, i, s, nid);
      var j := if s == ns[i].start then i else i + 1;
      0 < j < |l| - 1 && l[j] == ns[i].(start := s, size := End(ns[i]) - s) && l[j + 1] == ns[i + 1] &&
      l[j - 1] == (if s == ns[i].start then ns[i - 1] else Node(nid, 0, ns[i].start, s - ns[i].start, FREE))
    ensures var l := CutLeft(ns, i, s, nid);
      var j := if s == ns[i].start then i else i + 1;
      var r := CutRight(l, j, e, if s == ns[i].start then nid else nid + 1);
      r == ns[..i] + Split(ns[i], s, e, ns[i].ty, nid) + ns[i + 1..] && r[j] == ns[i].(start := s, size := e - s)
    ensures |Split(ns[i], s, e, ns[i].ty, nid)| - 1 == (if s == ns[i].start then 0 else 1) + (if e == End(ns[i]) then 0 else 1)
  {
    SplitByInserts(ns, i, s, e, ns[i].ty, nid);
    assert ns[i := ns[i].(ty := ns[i].ty)] == ns;
    if s != ns[i].start {
      var l := CutLeft(ns, i, s, nid);
      assert l[i + 2] == ns[i + 1];
    }
  }

  /** Setting the type first and splitting with it gives the split with
      the type. */
  lemma SplitRetyped(ns: seq<Node>, i: nat, s: nat, e: nat, ty: nat, nid: nat)
    requires 0 < i < |ns| - 1 && ns[i].start <= s < e <= End(ns[i])
    ensures var u := ns[i := ns[i].(ty := ty)];
      u[..i] + Split(u[i], s, e, u[i].ty, nid) + u[i + 1..] == ns[..i] + Split(ns[i], s, e, ty, nid) + ns[i + 1..]
  {
    var u := ns[i := ns[i].(ty := ty)];
    assert u[..i] == ns[..i] && u[i + 1..] == ns[i + 1..];
  }

  /** The piece an allocation takes from the node the search picks: it
      is no smaller than the minimum and no larger than the request, and
      lies in the node's window and so within [start, end). */
  lemma PieceFits(z: Sizes, ns: seq<Node>, i: nat, size: nat, flags: nat, start: nat, end: nat)
    requires SizesOk(z) && 0 < i < |ns| - 1 && size > 0 && Fits(z, ns, i, size, flags, start, end)
    ensures var p := Piece(Window(z, ns, i, flags, start, end), size, Bit(flags, FROMBACK));
      MinSize(size, flags) <= p.1 - p.0 <= size && 0 < p.1 - p.0 &&
      ns[i].start <= p.0 && p.1 <= End(ns[i]) && start <= p.0 && p.1 <= end
  {
  }

  /** When start, end and size are multiples of the request's page size,
      so are the ends of the piece. */
  lemma PieceAligned(z: Sizes, ns: seq<Node>, i: nat, size: nat, flags: nat, start: nat, end: nat)
    requires SizesOk(z) && 0 < i < |ns| - 1
    requires var q := PageSize(z, flags); start % q == 0 && end % q == 0 && size % q == 0
    ensures var p := Piece(Window(z, ns, i, flags, start, end), size, Bit(flags, FROMBACK));
      p.0 % PageSize(z, flags) == 0 && p.1 % PageSize(z, flags) == 0
  {
    var w := Window(z, ns, i, flags, start, end);
    var q := PageSize(z, flags);
    LpInType(flags);
    assert w.0 % q == 0 && w.1 % q == 0;
    if w.1 - w.0 > size {
      if Bit(flags, FROMBACK) {
        MultipleDiff(w.1, size, q);
      } else {
        MultipleSum(w.0, size, q);
      }
    }
  }

  /** The LP bit is one of the two bits of the gap type. */
  lemma LpInType(flags: nat)
    ensures Bit(flags % 4, LP) == Bit(flags, LP)
  {
    var h, l := flags / 4, flags % 4;
    assert flags == 4 * h + l;
    assert flags / 2 == 2 * h + l / 2;
  }

  /** The invariant of an allocator's state. */
  ghost predicate Good(z: Sizes, ns: seq<Node>, prevOf: map<nat, nat>, nextOf: map<nat, nat>, nextId: nat)
  {
    SizesOk(z) && Wf(ns, nextId) && Links(ns, prevOf, nextOf, nextId)
  }

  /** The nodes of a tree are in address order: each ends no later than
      any node after it starts. */
  lemma {:induction false} Ordered(ns: seq<Node>, nid: nat, j: nat, k: nat)
    requires Wf(ns, nid) && j < k < |ns|
    ensures End(ns[j]) <= ns[k].start
  {
    assert NodeOk(ns, k - 1, nid);
    if j < k - 1 {
      Ordered(ns, nid, j, k - 1);
    }
  }

  /** At most one node of a tree holds a given address. */
  lemma HolderUnique(ns: seq<Node>, nid: nat, addr: nat, j: nat, k: nat)
    requires Wf(ns, nid) && j < |ns| && k < |ns|
    requires ns[j].start <= addr < End(ns[j]) && ns[k].start <= addr < End(ns[k])
    ensures j == k
  {
    if j < k {
      Ordered(ns, nid, j, k);
    } else if k < j {
      Ordered(ns, nid, k, j);
    }
  }
}
