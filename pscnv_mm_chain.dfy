/** The allocations of the pscnv range allocator: a request may be met by
    several used nodes, linked in the order they were allocated by their
    next pointers and back by their prev pointers. */
module PscnvMmChain {
  import opened Util
  import opened PscnvMmTree

  /** The identities of a sequence of nodes. */
  function Ids(c: seq<Node>): (ids: seq<nat>)
    ensures |ids| == |c| && forall k :: 0 <= k < |c| ==> ids[k] == c[k].id
  {
    seq(|c|, k requires 0 <= k < |c| => c[k].id)
  }

  ghost predicate DistinctIds(c: seq<nat>)
  {
    forall j, k :: 0 <= j < k < |c| ==> c[j] != c[k]
  }

  /** The next pointers that link chain c: each element to the one after it. */
  function ChainNext(c: seq<nat>): map<nat, nat>
  {
    if |c| <= 1 then map[] else ChainNext(c[..|c| - 1])[c[|c| - 2] := c[|c| - 1]]
  }

  /** The prev pointers that link chain c: each element to the one before it. */
  function ChainPrev(c: seq<nat>): map<nat, nat>
  {
    if |c| <= 1 then map[] else ChainPrev(c[..|c| - 1])[c[|c| - 1] := c[|c| - 2]]
  }

  /** Only the elements before the tail have next links ... */
  lemma {:induction false} ChainNextKeys(c: seq<nat>, y: nat)
    requires forall j :: 0 <= j < |c| - 1 ==> c[j] != y
    ensures y !in ChainNext(c)
  {
    if |c| > 1 {
      assert forall j :: 0 <= j < |c| - 2 ==> c[..|c| - 1][j] == c[j];
      ChainNextKeys(c[..|c| - 1], y);
    }
  }

  /** ... and only those after the head prev links. */
  lemma {:induction false} ChainPrevKeys(c: seq<nat>, y: nat)
    requires forall j :: 0 < j < |c| ==> c[j] != y
    ensures y !in ChainPrev(c)
  {
    if |c| > 1 {
      assert forall j :: 0 < j < |c| - 1 ==> c[..|c| - 1][j] == c[j];
      ChainPrevKeys(c[..|c| - 1], y);
    }
  }

  /** Chain c is linked in both directions, its head has no prev pointer
      and its tail no next pointer. */
  ghost predicate Linked(prevOf: map<nat, nat>, nextOf: map<nat, nat>, c: seq<nat>)
  {
    (|c| > 0 ==> c[0] !in prevOf && c[|c| - 1] !in nextOf) &&
    (forall k :: 0 <= k < |c| - 1 ==> c[k] in nextOf && nextOf[c[k]] == c[k + 1]) &&
    (forall k :: 0 < k < |c| ==> c[k] in prevOf && prevOf[c[k]] == c[k - 1])
  }

  /** The identities of the used interior nodes. */
  ghost function Live(ns: seq<Node>): set<nat>
  {
    set n | n in Used(ns) && n.sentinel == 0 :: n.id
  }

  /** An allocation in a tree: a non-empty chain of distinct used
      interior nodes, linked. */
  ghost predicate Allocation(ns: seq<Node>, prevOf: map<nat, nat>, nextOf: map<nat, nat>, c: seq<nat>)
  {
    |c| > 0 && DistinctIds(c) && Linked(prevOf, nextOf, c) &&
    forall k :: 0 <= k < |c| ==> c[k] in Live(ns)
  }

  /** Appending y to a chain adds the link from its tail to y. */
  lemma AppendLinks(c: seq<nat>, y: nat)
    requires |c| > 0
    ensures ChainNext(c + [y]) == ChainNext(c)[c[|c| - 1] := y]
    ensures ChainPrev(c + [y]) == ChainPrev(c)[y := c[|c| - 1]]
  {
    assert (c + [y])[..|c|] == c;
  }

  /** The links of a chain of distinct elements point as the chain goes. */
  lemma {:induction false} ChainValues(c: seq<nat>)
    requires DistinctIds(c)
    ensures forall k :: 0 <= k < |c| - 1 ==> c[k] in ChainNext(c) && ChainNext(c)[c[k]] == c[k + 1]
    ensures forall k :: 0 < k < |c| ==> c[k] in ChainPrev(c) && ChainPrev(c)[c[k]] == c[k - 1]
  {
    if |c| > 1 {
      var d := c[..|c| - 1];
      var t := |c| - 1;
      assert DistinctIds(d);
      ChainValues(d);
      forall k | 0 <= k < |c| - 1
        ensures ChainNext(c)[c[k]] == c[k + 1]
      {
        if k < t - 1 {
          assert d[k] == c[k] && d[k + 1] == c[k + 1] && c[k] != c[t - 1];
        }
      }
      forall k | 0 < k < |c|
        ensures ChainPrev(c)[c[k]] == c[k - 1]
      {
        if k < t {
          assert d[k] == c[k] && d[k - 1] == c[k - 1] && c[k] != c[t];
        }
      }
    }
  }

  /** Adding the links of a fresh chain of distinct elements links it. */
  lemma ChainLinked(prevOf: map<nat, nat>, nextOf: map<nat, nat>, c: seq<nat>)
    requires DistinctIds(c)
    requires forall k :: 0 <= k < |c| ==> c[k] !in prevOf && c[k] !in nextOf
    ensures Linked(prevOf + ChainPrev(c), nextOf + ChainNext(c), c)
  {
    ChainValues(c);
    if |c| > 0 {
      ChainPrevKeys(c, c[0]);
      ChainNextKeys(c, c[|c| - 1]);
    }
  }

  /** Undoing an allocation from its tail, as `pscnv_mm_alloc` does when a
      later piece fails: freeing the k-th element clears its prev link,
      and the next link of the element before it pointing to it (left
      over from the previous step). */
  lemma RollbackStep(prevOf: map<nat, nat>, nextOf: map<nat, nat>, c: seq<nat>, k: nat)
    requires DistinctIds(c) && 0 < k <= |c|
    requires forall j :: 0 <= j < |c| ==> c[j] !in prevOf && c[j] !in nextOf
    ensures var after := if k < |c| then k + 1 else k;
      Unlink(prevOf + ChainPrev(c[..k]), nextOf + ChainNext(c[..after]), c[k - 1]) ==
        (prevOf + ChainPrev(c[..k - 1]), nextOf + ChainNext(c[..k]))
  {
    var after := if k < |c| then k + 1 else k;
    var p, n, x := prevOf + ChainPrev(c[..k]), nextOf + ChainNext(c[..after]), c[k - 1];
    RollbackNext(nextOf, c, k);
    RollbackPrev(prevOf, c, k);
    if k < |c| {
      DropAbsent(p, c[k]);
    }
  }

  lemma RollbackNext(nextOf: map<nat, nat>, c: seq<nat>, k: nat)
    requires DistinctIds(c) && 0 < k <= |c|
    requires forall j :: 0 <= j < |c| ==> c[j] !in nextOf
    ensures var n := nextOf + ChainNext(c[..if k < |c| then k + 1 else k]);
      (k < |c| ==> c[k - 1] in n && n[c[k - 1]] == c[k] && n - {c[k - 1]} == nextOf + ChainNext(c[..k])) &&
      (k == |c| ==> c[k - 1] !in n)
  {
    var x := c[k - 1];
    if k < |c| {
      assert c[..k + 1] == c[..k] + [c[k]];
      AppendLinks(c[..k], c[k]);
      assert forall j :: 0 <= j < k - 1 ==> c[..k][j] == c[j] != x;
      ChainNextKeys(c[..k], x);
      DropAdded(nextOf, ChainNext(c[..k]), x, c[k]);
    } else {
      assert forall j :: 0 <= j < k - 1 ==> c[..k][j] == c[j] != x;
      ChainNextKeys(c[..k], x);
    }
  }

  lemma RollbackPrev(prevOf: map<nat, nat>, c: seq<nat>, k: nat)
    requires DistinctIds(c) && 0 < k <= |c|
    requires forall j :: 0 <= j < |c| ==> c[j] !in prevOf
    ensures var p := prevOf + ChainPrev(c[..k]);
      (k < |c| ==> c[k] !in p) &&
      (k > 1 ==> c[k - 1] in p && p - {c[k - 1]} == prevOf + ChainPrev(c[..k - 1])) &&
      (k == 1 ==> c[0] !in p && p == prevOf + ChainPrev(c[..0]))
  {
    if k < |c| {
      PrevAbsentAfter(prevOf, c, k);
    }
    if k > 1 {
      PrevDropLast(prevOf, c, k);
    } else {
      assert c[..k] == [c[0]];
    }
  }

  /** The element after a prefix has no prev link yet ... */
  lemma PrevAbsentAfter(prevOf: map<nat, nat>, c: seq<nat>, k: nat)
    requires DistinctIds(c) && k < |c| && c[k] !in prevOf
    ensures c[k] !in prevOf + ChainPrev(c[..k])
  {
    forall j | 0 < j < k
      ensures c[..k][j] != c[k]
    {
      assert c[..k][j] == c[j];
    }
    ChainPrevKeys(c[..k], c[k]);
  }

  /** ... and dropping the prev link of its last element shortens it. */
  lemma PrevDropLast(prevOf: map<nat, nat>, c: seq<nat>, k: nat)
    requires DistinctIds(c) && 1 < k <= |c| && c[k - 1] !in prevOf
    ensures var p := prevOf + ChainPrev(c[..k]);
      c[k - 1] in p && p - {c[k - 1]} == prevOf + ChainPrev(c[..k - 1])
  {
    var x := c[k - 1];
    var d := c[..k - 1];
    assert c[..k] == d + [x];
    AppendLinks(d, x);
    forall j | 0 < j < k - 1
      ensures d[j] != x
    {
      assert d[j] == c[j];
    }
    ChainPrevKeys(d, x);
    DropAdded(prevOf, ChainPrev(d), x, d[k - 2]);
  }

  /** The prev link of the k-th element of a linked prefix. */
  lemma PrevOfLast(prevOf: map<nat, nat>, c: seq<nat>, k: nat)
    requires 1 < k <= |c|
    ensures c[k - 1] in prevOf + ChainPrev(c[..k]) && (prevOf + ChainPrev(c[..k]))[c[k - 1]] == c[k - 2]
  {
    var d := c[..k - 1];
    assert c[..k] == d + [c[k - 1]];
    AppendLinks(d, c[k - 1]);
    assert d[k - 2] == c[k - 2];
  }

  lemma DropAbsent(a: map<nat, nat>, x: nat)
    requires x !in a
    ensures a - {x} == a
  {
  }

  /** Adding a key to b and removing it again leaves a + b. */
  lemma DropAdded(a: map<nat, nat>, b: map<nat, nat>, x: nat, v: nat)
    requires x !in a && x !in b
    ensures (a + b[x := v]) - {x} == a + b
  {
  }

  /** The first j elements of a chain. */
  ghost function Firsts(c: seq<nat>, j: nat): set<nat>
  {
    set m | 0 <= m < j && m < |c| :: c[m]
  }

  /** Freeing an allocation from its head, as `pscnv_mm_free` does: once
      the first j elements are freed, freeing element j clears its next
      link and the prev link of the element after it. */
  lemma FreeChainStep(prevOf: map<nat, nat>, nextOf: map<nat, nat>, c: seq<nat>, j: nat)
    requires DistinctIds(c) && Linked(prevOf, nextOf, c) && j < |c|
    ensures Unlink(prevOf - Firsts(c, j + 1), nextOf - Firsts(c, j), c[j]) ==
      (prevOf - Firsts(c, j + 2), nextOf - Firsts(c, j + 1))
  {
    var x := c[j];
    var p, n := prevOf - Firsts(c, j + 1), nextOf - Firsts(c, j);
    assert x !in Firsts(c, j);
    assert Firsts(c, j + 1) == Firsts(c, j) + {x};
    assert x !in p;
    if j + 1 < |c| {
      assert x in n && n[x] == c[j + 1];
      assert Firsts(c, j + 2) == Firsts(c, j + 1) + {c[j + 1]};
      assert p - {c[j + 1]} == prevOf - Firsts(c, j + 2);
      assert n - {x} == nextOf - Firsts(c, j + 1);
    } else {
      assert x !in n;
      assert Firsts(c, j + 2) == Firsts(c, j + 1);
      assert n == nextOf - Firsts(c, j + 1);
    }
  }

  /** Two used nodes with the same identity are the same node. */
  lemma UsedUnique(ns: seq<Node>, nid: nat, m: Node, n: Node)
    requires Wf(ns, nid) && m in Used(ns) && n in Used(ns) && m.id == n.id
    ensures m == n
  {
    var j :| 0 <= j < |ns| && ns[j].ty != FREE && ns[j] == m;
    var k :| 0 <= k < |ns| && ns[k].ty != FREE && ns[k] == n;
  }

  /** A live identity names a used interior node, and only one. */
  lemma LiveAt(ns: seq<Node>, nid: nat, x: nat)
    requires Wf(ns, nid) && x in Live(ns)
    ensures exists k :: 0 <= k < |ns| && ns[k].id == x
    ensures forall k :: 0 <= k < |ns| && ns[k].id == x ==> 0 < k < |ns| - 1 && ns[k].ty != FREE
  {
    var n :| n in Used(ns) && n.sentinel == 0 && n.id == x;
    var j :| 0 <= j < |ns| && ns[j].ty != FREE && ns[j] == n;
    forall k | 0 <= k < |ns| && ns[k].id == x
      ensures 0 < k < |ns| - 1 && ns[k].ty != FREE
    {
      assert ns[j].id == ns[k].id;
    }
  }

  /** Freeing node i leaves every other live identity live. */
  lemma LiveAfterFree(ns: seq<Node>, nid: nat, i: nat, x: nat)
    requires Wf(ns, nid) && 0 < i < |ns| - 1 && x in Live(ns) && x != ns[i].id
    ensures x in Live(Freed(ns, i))
  {
    FreedUsed(ns, nid, i);
    var n :| n in Used(ns) && n.sentinel == 0 && n.id == x;
    assert n in Used(Freed(ns, i));
  }

  /** Freeing the used node of element j drops it from the used nodes of
      an allocation being freed. */
  lemma FreeChainUsed(ns: seq<Node>, nid: nat, i: nat, used0: set<Node>, c: seq<nat>, j: nat)
    requires Wf(ns, nid) && 0 < i < |ns| - 1 && ns[i].ty != FREE && j < |c| && ns[i].id == c[j]
    requires Used(ns) == set n | n in used0 && n.id !in Firsts(c, j)
    ensures Used(ns) - {ns[i]} == set n | n in used0 && n.id !in Firsts(c, j + 1)
  {
    assert Firsts(c, j + 1) == Firsts(c, j) + {c[j]};
    assert ns[i] in Used(ns);
    forall n | n in Used(ns) && n != ns[i]
      ensures n.id != c[j]
    {
      if n.id == c[j] {
        UsedUnique(ns, nid, n, ns[i]);
      }
    }
  }

  /** The nodes of a sequence, as a set. */
  ghost function Elems(c: seq<Node>): set<Node>
  {
    set n | n in c
  }

  /** The total size of a sequence of nodes. */
  function Total(c: seq<Node>): nat
  {
    if c == [] then 0 else Total(c[..|c| - 1]) + c[|c| - 1].size
  }

  /** Where the node with identity x sits in the in-order sequence: the
      model's stand-in for a pointer to it. */
  function IndexOf(ns: seq<Node>, x: nat): (k: nat)
    requires exists j :: 0 <= j < |ns| && ns[j].id == x
    ensures k < |ns| && ns[k].id == x
    ensures forall j :: 0 <= j < k ==> ns[j].id != x
  {
    if ns[0].id == x then 0
    else
      assert exists j :: 0 <= j < |ns[1..]| && ns[1..][j].id == x by {
        var j :| 0 <= j < |ns| && ns[j].id == x;
        assert ns[1..][j - 1].id == x;
      }
      1 + IndexOf(ns[1..], x)
  }

  /** The nodes of the first k elements of a chain of distinct identities
      are those of the first k - 1 and the k-th, which is not among them. */
  lemma ElemsLast(c: seq<Node>, k: nat)
    requires DistinctIds(Ids(c)) && 0 < k <= |c|
    ensures Elems(c[..k]) == Elems(c[..k - 1]) + {c[k - 1]} && c[k - 1] !in Elems(c[..k - 1])
  {
    assert c[..k] == c[..k - 1] + [c[k - 1]];
    forall j | 0 <= j < k - 1
      ensures c[j] != c[k - 1]
    {
      assert Ids(c)[j] != Ids(c)[k - 1];
    }
  }

  lemma DropLast(a: set<Node>, b: set<Node>, x: Node)
    requires x !in a && x !in b
    ensures (a + (b + {x})) - {x} == a + b
  {
  }

  /** The state of an allocator while an allocation of the pieces in
      chain is being undone from its tail, k pieces remaining: the pieces
      left are used and linked, the others are gone. */
  ghost predicate UndoneTo(z: Sizes, ns: seq<Node>, prevOf: map<nat, nat>, nextOf: map<nat, nat>, nid: nat,
                           chain: seq<Node>, k: nat, used0: set<Node>, prev0: map<nat, nat>, next0: map<nat, nat>)
  {
    k <= |chain| && Good(z, ns, prevOf, nextOf, nid) && Used(ns) == used0 + Elems(chain[..k]) &&
    prevOf == prev0 + ChainPrev(Ids(chain)[..k]) &&
    nextOf == next0 + ChainNext(Ids(chain)[..if k < |chain| then k + 1 else k])
  }

  /** The pieces of an allocation in progress: interior nodes of distinct
      identities, none of which had a link before it started. */
  ghost predicate FreshChain(chain: seq<Node>, prev0: map<nat, nat>, next0: map<nat, nat>)
  {
    DistinctIds(Ids(chain)) &&
    forall j :: 0 <= j < |chain| ==> chain[j].sentinel == 0 && chain[j].id !in prev0 && chain[j].id !in next0
  }

  /** One step of undoing an allocation: the k-th piece is found in the
      tree, and its prev pointer names the piece before it, if any. */
  lemma UndoFind(z: Sizes, ns: seq<Node>, prevOf: map<nat, nat>, nextOf: map<nat, nat>, nid: nat,
                 chain: seq<Node>, k: nat, used0: set<Node>, prev0: map<nat, nat>, next0: map<nat, nat>)
    requires FreshChain(chain, prev0, next0) && 0 < k <= |chain|
    requires UndoneTo(z, ns, prevOf, nextOf, nid, chain, k, used0, prev0, next0)
    ensures var x := chain[k - 1].id;
      (exists j :: 0 <= j < |ns| && ns[j].id == x) &&
      (x in prevOf <==> k > 1) && (k > 1 ==> prevOf[x] == chain[k - 2].id) &&
      var i := IndexOf(ns, x);
      0 < i < |ns| - 1 && ns[i] == chain[k - 1]
  {
    var ids := Ids(chain);
    var x := chain[k - 1].id;
    RollbackPrev(prev0, ids, k);
    if k > 1 {
      PrevOfLast(prev0, ids, k);
      assert ids[k - 2] == chain[k - 2].id;
    }
    assert chain[k - 1] in Elems(chain[..k]);
    assert x in Live(ns) by {
      assert chain[k - 1] in Used(ns) && chain[k - 1].sentinel == 0;
    }
    LiveAt(ns, nid, x);
    var i := IndexOf(ns, x);
    assert ns[i] in Used(ns);
    UsedUnique(ns, nid, ns[i], chain[k - 1]);
  }

  /** Freeing the k-th piece, at i in the tree, leaves k - 1 pieces. */
  lemma UndoFree(z: Sizes, ns: seq<Node>, prevOf: map<nat, nat>, nextOf: map<nat, nat>, nid: nat,
                 chain: seq<Node>, k: nat, used0: set<Node>, prev0: map<nat, nat>, next0: map<nat, nat>, i: nat)
    requires FreshChain(chain, prev0, next0) && used0 !! Elems(chain) && 0 < k <= |chain|
    requires UndoneTo(z, ns, prevOf, nextOf, nid, chain, k, used0, prev0, next0)
    requires 0 < i < |ns| - 1 && ns[i] == chain[k - 1]
    ensures var u := Unlink(prevOf, nextOf, ns[i].id);
      UndoneTo(z, Freed(ns, i), u.0, u.1, nid, chain, k - 1, used0, prev0, next0)
  {
    var ids := Ids(chain);
    assert ns[i].id == ids[k - 1] && |ids| == |chain|;
    RollbackStep(prev0, next0, ids, k);
    ElemsLast(chain, k);
    DropLast(used0, Elems(chain[..k - 1]), chain[k - 1]);
    FreeStep(z, ns, prevOf, nextOf, nid, i);
  }

  /** Undoing starts with every piece still there ... */
  lemma UndoStart(z: Sizes, ns: seq<Node>, prevOf: map<nat, nat>, nextOf: map<nat, nat>, nid: nat,
                  chain: seq<Node>, used0: set<Node>, prev0: map<nat, nat>, next0: map<nat, nat>)
    requires Grown(z, ns, prevOf, nextOf, nid, chain, used0, prev0, next0)
    ensures UndoneTo(z, ns, prevOf, nextOf, nid, chain, |chain|, used0, prev0, next0)
  {
    assert Ids(chain)[..|chain|] == Ids(chain);
    assert chain[..|chain|] == chain;
  }

  /** ... and ends, none left, in the state before the allocation. */
  lemma UndoDone(z: Sizes, ns: seq<Node>, prevOf: map<nat, nat>, nextOf: map<nat, nat>, nid: nat,
                 chain: seq<Node>, used0: set<Node>, prev0: map<nat, nat>, next0: map<nat, nat>)
    requires UndoneTo(z, ns, prevOf, nextOf, nid, chain, 0, used0, prev0, next0)
    ensures Good(z, ns, prevOf, nextOf, nid) && Used(ns) == used0 && prevOf == prev0 && nextOf == next0
  {
    assert Ids(chain)[..0] == [];
    assert chain[..0] == [];
    assert Elems(chain[..0]) == {};
    if chain != [] {
      assert |Ids(chain)[..1]| == 1;
    }
  }

  /** The state of an allocator while `pscnv_mm_alloc` grows an allocation:
      the pieces taken so far are fresh, used and linked in the order they
      were taken, and nothing else changed since the state with used
      nodes used0 and links prev0 and next0. */
  ghost predicate Grown(z: Sizes, ns: seq<Node>, prevOf: map<nat, nat>, nextOf: map<nat, nat>, nid: nat,
                        chain: seq<Node>, used0: set<Node>, prev0: map<nat, nat>, next0: map<nat, nat>)
  {
    Good(z, ns, prevOf, nextOf, nid) && FreshChain(chain, prev0, next0) && used0 !! Elems(chain) &&
    Used(ns) == used0 + Elems(chain) &&
    prevOf == prev0 + ChainPrev(Ids(chain)) && nextOf == next0 + ChainNext(Ids(chain))
  }

  /** Growing starts from the empty allocation. */
  lemma GrowStart(z: Sizes, ns: seq<Node>, prevOf: map<nat, nat>, nextOf: map<nat, nat>, nid: nat)
    requires Good(z, ns, prevOf, nextOf, nid)
    ensures Grown(z, ns, prevOf, nextOf, nid, [], Used(ns), prevOf, nextOf)
  {
    assert Ids([]) == [];
    assert Elems([]) == {};
  }

  /** A used node names an identity below the next fresh one, and no
      other node of the tree has its identity. */
  lemma UsedId(ns: seq<Node>, nid: nat, n: Node)
    requires Wf(ns, nid) && n in Used(ns)
    ensures n.id < nid && forall k :: 0 <= k < |ns| && ns[k].id == n.id ==> ns[k] == n
  {
    var j :| 0 <= j < |ns| && ns[j].ty != FREE && ns[j] == n;
    assert NodeOk(ns, j, nid);
  }

  /** A piece taken by `pscnv_mm_alloc_single` and linked after the last
      one grows the allocation by it. */
  lemma GrowStep(z: Sizes, ns: seq<Node>, prevOf: map<nat, nat>, nextOf: map<nat, nat>, nid: nat,
                 chain: seq<Node>, used0: set<Node>, prev0: map<nat, nat>, next0: map<nat, nat>,
                 ns1: seq<Node>, nid1: nat, res: Node, prev1: map<nat, nat>, next1: map<nat, nat>)
    requires Grown(z, ns, prevOf, nextOf, nid, chain, used0, prev0, next0)
    requires Good(z, ns1, prevOf, nextOf, nid1) && Used(ns1) == Used(ns) + {res} && res !in Used(ns)
    requires res.sentinel == 0 && res.id !in prevOf && res.id !in nextOf
    requires prev1 == if chain == [] then prevOf - {res.id} else prevOf[res.id := chain[|chain| - 1].id]
    requires next1 == if chain == [] then nextOf else nextOf[chain[|chain| - 1].id := res.id]
    ensures Grown(z, ns1, prev1, next1, nid1, chain + [res], used0, prev0, next0)
  {
    var c := chain + [res];
    assert Ids(c) == Ids(chain) + [res.id];
    assert Elems(c) == Elems(chain) + {res};
    forall j | 0 <= j < |chain|
      ensures chain[j].id != res.id
    {
      assert chain[j] in Elems(chain);
      UsedId(ns1, nid1, res);
      if chain[j].id == res.id {
        UsedUnique(ns1, nid1, chain[j], res);
      }
    }
    assert FreshChain(c, prev0, next0);
    GrowLinks(z, ns1, prevOf, nextOf, nid1, chain, res, prev1, next1);
    if chain == [] {
      DropAbsent(prevOf, res.id);
    } else {
      var t := Ids(chain)[|chain| - 1];
      AppendLinks(Ids(chain), res.id);
      UpdateMerged(prev0, ChainPrev(Ids(chain)), res.id, t);
      UpdateMerged(next0, ChainNext(Ids(chain)), t, res.id);
    }
  }

  lemma UpdateMerged(a: map<nat, nat>, b: map<nat, nat>, x: nat, v: nat)
    ensures (a + b)[x := v] == a + b[x := v]
  {
  }

  /** Linking the new piece keeps the link invariant: both ends of the
      new link are used. */
  lemma GrowLinks(z: Sizes, ns: seq<Node>, prevOf: map<nat, nat>, nextOf: map<nat, nat>, nid: nat,
                  chain: seq<Node>, res: Node, prev1: map<nat, nat>, next1: map<nat, nat>)
    requires Good(z, ns, prevOf, nextOf, nid) && res in Used(ns)
    requires chain != [] ==> chain[|chain| - 1] in Used(ns)
    requires prev1 == if chain == [] then prevOf - {res.id} else prevOf[res.id := chain[|chain| - 1].id]
    requires next1 == if chain == [] then nextOf else nextOf[chain[|chain| - 1].id := res.id]
    ensures Good(z, ns, prev1, next1, nid)
  {
    UsedId(ns, nid, res);
    if chain != [] {
      UsedId(ns, nid, chain[|chain| - 1]);
    }
  }

  /** `last->next = 0` at the end changes nothing: the tail has no next
      link yet. */
  lemma GrownEnd(z: Sizes, ns: seq<Node>, prevOf: map<nat, nat>, nextOf: map<nat, nat>, nid: nat,
                 chain: seq<Node>, used0: set<Node>, prev0: map<nat, nat>, next0: map<nat, nat>)
    requires Grown(z, ns, prevOf, nextOf, nid, chain, used0, prev0, next0) && chain != []
    ensures nextOf - {chain[|chain| - 1].id} == nextOf
  {
    var ids := Ids(chain);
    assert ids[|chain| - 1] == chain[|chain| - 1].id;
    ChainNextKeys(ids, ids[|chain| - 1]);
  }

  /** A grown allocation with at least one piece is an allocation: its
      pieces are live and linked in both directions. */
  lemma GrownAllocation(z: Sizes, ns: seq<Node>, prevOf: map<nat, nat>, nextOf: map<nat, nat>, nid: nat,
                        chain: seq<Node>, used0: set<Node>, prev0: map<nat, nat>, next0: map<nat, nat>)
    requires Grown(z, ns, prevOf, nextOf, nid, chain, used0, prev0, next0) && chain != []
    ensures Allocation(ns, prevOf, nextOf, Ids(chain))
  {
    var ids := Ids(chain);
    ChainLinked(prev0, next0, ids);
    forall k | 0 <= k < |ids|
      ensures ids[k] in Live(ns)
    {
      assert chain[k] in Elems(chain);
    }
  }

  /** A piece of an allocation for flags within [s, e), the range
      rounded to the page size: not empty, of the requested type, inside
      the range, and aligned to the page size at both ends. */
  ghost predicate Placed(z: Sizes, n: Node, flags: nat, s: nat, e: nat)
    requires SizesOk(z)
  {
    var q := PageSize(z, flags);
    n.size > 0 && n.ty == flags % 2 && s <= n.start && End(n) <= e && n.start % q == 0 && End(n) % q == 0
  }

  /** The identities in a chain, as a set. */
  ghost function IdSet(c: seq<nat>): set<nat>
  {
    set y | y in c
  }

  /** What `pscnv_mm_free` may be given: a node of the tree, which, if
      it is not free, belongs to allocation c. */
  ghost predicate Freeable(ns: seq<Node>, prevOf: map<nat, nat>, nextOf: map<nat, nat>, x: nat, c: seq<nat>)
  {
    (exists k :: 0 <= k < |ns| && ns[k].id == x) &&
    forall k :: 0 <= k < |ns| && ns[k].id == x && ns[k].ty != FREE ==> Allocation(ns, prevOf, nextOf, c) && x in c
  }

  /** Freeing allocation c from its head, after its first j elements:
      the rest are still live, the used nodes of the first j are gone,
      and so are their links (the prev link of element j too, the head's
      having none and the others' being cleared by the element before). */
  ghost predicate FreedTo(z: Sizes, ns: seq<Node>, prevOf: map<nat, nat>, nextOf: map<nat, nat>, nid: nat,
                          c: seq<nat>, j: nat, used0: set<Node>, prev0: map<nat, nat>, next0: map<nat, nat>)
  {
    j <= |c| && Good(z, ns, prevOf, nextOf, nid) && DistinctIds(c) && Linked(prev0, next0, c) &&
    (forall k :: j <= k < |c| ==> c[k] in Live(ns)) &&
    Used(ns) == (set n | n in used0 && n.id !in Firsts(c, j)) &&
    prevOf == prev0 - Firsts(c, j + 1) && nextOf == next0 - Firsts(c, j)
  }

  /** Freeing starts at the head with nothing freed. */
  lemma FreeStart(z: Sizes, ns: seq<Node>, prevOf: map<nat, nat>, nextOf: map<nat, nat>, nid: nat, c: seq<nat>)
    requires Good(z, ns, prevOf, nextOf, nid) && Allocation(ns, prevOf, nextOf, c)
    ensures FreedTo(z, ns, prevOf, nextOf, nid, c, 0, Used(ns), prevOf, nextOf)
  {
    assert Firsts(c, 0) == {};
    assert Firsts(c, 1) == {c[0]};
    DropAbsent(prevOf, c[0]);
  }

  /** Element j, when freeing has reached it, is a used interior node of
      the tree, and its next pointer names element j + 1, if any. */
  lemma FreedAt(z: Sizes, ns: seq<Node>, prevOf: map<nat, nat>, nextOf: map<nat, nat>, nid: nat,
                c: seq<nat>, j: nat, used0: set<Node>, prev0: map<nat, nat>, next0: map<nat, nat>)
    requires FreedTo(z, ns, prevOf, nextOf, nid, c, j, used0, prev0, next0) && j < |c|
    ensures exists k :: 0 <= k < |ns| && ns[k].id == c[j]
    ensures forall k :: 0 <= k < |ns| && ns[k].id == c[j] ==> 0 < k < |ns| - 1 && ns[k].ty != FREE
    ensures (c[j] in nextOf <==> j + 1 < |c|) && (j + 1 < |c| ==> nextOf[c[j]] == c[j + 1])
  {
    LiveAt(ns, nid, c[j]);
    assert c[j] !in Firsts(c, j);
  }

  /** Freeing element j, found at index i, advances the freeing by one. */
  lemma FreedNext(z: Sizes, ns: seq<Node>, prevOf: map<nat, nat>, nextOf: map<nat, nat>, nid: nat,
                  c: seq<nat>, j: nat, used0: set<Node>, prev0: map<nat, nat>, next0: map<nat, nat>, i: nat)
    requires FreedTo(z, ns, prevOf, nextOf, nid, c, j, used0, prev0, next0) && j < |c|
    requires 0 < i < |ns| - 1 && ns[i].id == c[j] && ns[i].ty != FREE
    ensures var u := Unlink(prevOf, nextOf, c[j]);
      FreedTo(z, Freed(ns, i), u.0, u.1, nid, c, j + 1, used0, prev0, next0)
  {
    FreeStep(z, ns, prevOf, nextOf, nid, i);
    FreeChainUsed(ns, nid, i, used0, c, j);
    FreeChainStep(prev0, next0, c, j);
    forall k | j + 1 <= k < |c|
      ensures c[k] in Live(Freed(ns, i))
    {
      LiveAfterFree(ns, nid, i, c[k]);
    }
  }

  /** With every element freed, the used nodes and links of the
      allocation are gone and nothing else is touched. */
  lemma FreedAll(z: Sizes, ns: seq<Node>, prevOf: map<nat, nat>, nextOf: map<nat, nat>, nid: nat,
                 c: seq<nat>, used0: set<Node>, prev0: map<nat, nat>, next0: map<nat, nat>)
    requires FreedTo(z, ns, prevOf, nextOf, nid, c, |c|, used0, prev0, next0)
    ensures Good(z, ns, prevOf, nextOf, nid)
    ensures Used(ns) == (set n | n in used0 && n.id !in IdSet(c))
    ensures prevOf == prev0 - IdSet(c) && nextOf == next0 - IdSet(c)
  {
    assert Firsts(c, |c|) == IdSet(c);
    assert Firsts(c, |c| + 1) == IdSet(c);
  }

  /** Removing a set of keys that holds all of b's and none of a's from
      a + b leaves a. */
  lemma DropMerged(a: map<nat, nat>, b: map<nat, nat>, ks: set<nat>)
    requires forall y :: y in b ==> y in ks
    requires forall y :: y in ks ==> y !in a
    ensures (a + b) - ks == a
  {
  }

  /** The round trip of an allocation: freeing all of it, as
      `pscnv_mm_free` does from its head, leaves the used nodes and the
      links as they were before it was made. */
  lemma FreeUndoesAlloc(z: Sizes, ns: seq<Node>, prevOf: map<nat, nat>, nextOf: map<nat, nat>, nid: nat,
                        chain: seq<Node>, used0: set<Node>, prev0: map<nat, nat>, next0: map<nat, nat>)
    requires Grown(z, ns, prevOf, nextOf, nid, chain, used0, prev0, next0)
    ensures (set n | n in Used(ns) && n.id !in IdSet(Ids(chain))) == used0
    ensures prevOf - IdSet(Ids(chain)) == prev0 && nextOf - IdSet(Ids(chain)) == next0
  {
    var ids := Ids(chain);
    forall n | n in used0
      ensures n.id !in IdSet(ids)
    {
      if n.id in IdSet(ids) {
        var k :| 0 <= k < |ids| && ids[k] == n.id;
        assert chain[k] in Elems(chain);
        UsedUnique(ns, nid, n, chain[k]);
      }
    }
    forall n | n in Elems(chain)
      ensures n.id in IdSet(ids)
    {
      var k :| 0 <= k < |chain| && chain[k] == n;
      assert ids[k] == n.id;
    }
    forall y | y !in IdSet(ids)
      ensures y !in ChainPrev(ids) && y !in ChainNext(ids)
    {
      ChainPrevKeys(ids, y);
      ChainNextKeys(ids, y);
    }
    DropMerged(prev0, ChainPrev(ids), IdSet(ids));
    DropMerged(next0, ChainNext(ids), IdSet(ids));
  }

  /** The state of the loop of `pscnv_mm_alloc` on a request of total
      bytes for flags within [s, e), from tree ns0: the pieces taken so
      far are a grown allocation, together with rem they make up the
      total, each is placed, and without FRAGOK there is at most one,
      which fits the whole request. */
  ghost predicate Taking(z: Sizes, ns: seq<Node>, prevOf: map<nat, nat>, nextOf: map<nat, nat>, nid: nat,
                         chain: seq<Node>, used0: set<Node>, prev0: map<nat, nat>, next0: map<nat, nat>,
                         ns0: seq<Node>, rem: nat, total: nat, flags: nat, s: nat, e: nat)
  {
    Grown(z, ns, prevOf, nextOf, nid, chain, used0, prev0, next0) && |ns0| >= 2 &&
    Total(chain) + rem == total && rem % PageSize(z, flags) == 0 &&
    (forall n :: n in chain ==> Placed(z, n, flags, s, e)) &&
    (chain == [] ==> ns == ns0 && rem == total) &&
    (!Bit(flags, FRAGOK) && chain != [] ==> |chain| == 1 && rem == 0 && Fit(z, ns0, total, flags, s, e).Some?)
  }

  /** The loop starts with nothing taken. */
  lemma TakingStart(z: Sizes, ns: seq<Node>, prevOf: map<nat, nat>, nextOf: map<nat, nat>, nid: nat,
                    total: nat, flags: nat, s: nat, e: nat)
    requires Good(z, ns, prevOf, nextOf, nid) && total % PageSize(z, flags) == 0
    ensures Taking(z, ns, prevOf, nextOf, nid, [], Used(ns), prevOf, nextOf, ns, total, total, flags, s, e)
  {
    GrowStart(z, ns, prevOf, nextOf, nid);
  }

  /** A piece taken while rem is left, placed and of at least the minimum
      size, advances the loop; the first piece is taken from ns0. */
  lemma TakingStep(z: Sizes, ns: seq<Node>, prevOf: map<nat, nat>, nextOf: map<nat, nat>, nid: nat,
                   chain: seq<Node>, used0: set<Node>, prev0: map<nat, nat>, next0: map<nat, nat>,
                   ns0: seq<Node>, rem: nat, total: nat, flags: nat, s: nat, e: nat,
                   ns1: seq<Node>, prev1: map<nat, nat>, next1: map<nat, nat>, nid1: nat, cur: Node)
    requires Taking(z, ns, prevOf, nextOf, nid, chain, used0, prev0, next0, ns0, rem, total, flags, s, e) && rem > 0
    requires Grown(z, ns1, prev1, next1, nid1, chain + [cur], used0, prev0, next0)
    requires MinSize(rem, flags) <= cur.size <= rem && Placed(z, cur, flags, s, e)
    requires chain == [] ==> Fit(z, ns, rem, flags, s, e).Some?
    ensures Taking(z, ns1, prev1, next1, nid1, chain + [cur], used0, prev0, next0, ns0, rem - cur.size, total, flags, s, e)
  {
    var q := PageSize(z, flags);
    var c := chain + [cur];
    assert c[..|chain|] == chain;
    MultipleDiff(End(cur), cur.start, q);
    MultipleDiff(rem, cur.size, q);
    forall n | n in c
      ensures Placed(z, n, flags, s, e)
    {
      if n != cur {
        assert n in chain;
      }
    }
  }

  /** A piece is sought only while rem is left, so without FRAGOK it is
      the first, for the whole request, from ns0. */
  lemma TakingFirst(z: Sizes, ns: seq<Node>, prevOf: map<nat, nat>, nextOf: map<nat, nat>, nid: nat,
                    chain: seq<Node>, used0: set<Node>, prev0: map<nat, nat>, next0: map<nat, nat>,
                    ns0: seq<Node>, rem: nat, total: nat, flags: nat, s: nat, e: nat)
    requires Taking(z, ns, prevOf, nextOf, nid, chain, used0, prev0, next0, ns0, rem, total, flags, s, e) && rem > 0
    requires !Bit(flags, FRAGOK)
    ensures chain == [] && ns == ns0 && rem == total
  {
  }

  /** When nothing is left the pieces make up the total, and without
      FRAGOK a non-empty request took exactly one piece, which fits. */
  lemma TakingDone(z: Sizes, ns: seq<Node>, prevOf: map<nat, nat>, nextOf: map<nat, nat>, nid: nat,
                   chain: seq<Node>, used0: set<Node>, prev0: map<nat, nat>, next0: map<nat, nat>,
                   ns0: seq<Node>, total: nat, flags: nat, s: nat, e: nat)
    requires Taking(z, ns, prevOf, nextOf, nid, chain, used0, prev0, next0, ns0, 0, total, flags, s, e)
    ensures Grown(z, ns, prevOf, nextOf, nid, chain, used0, prev0, next0) && Total(chain) == total
    ensures forall n :: n in chain ==> Placed(z, n, flags, s, e)
    ensures !Bit(flags, FRAGOK) && 0 < total ==> |chain| == 1 && Fit(z, ns0, total, flags, s, e).Some?
  {
  }
}
