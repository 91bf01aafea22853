/** The pscnv range allocator as an object: its tree, the prev and next
    pointers of its nodes, and the operations of pscnv_mm.c on them. */
module PscnvMm {
  import opened Util
  import opened PscnvMmTree
  import opened PscnvMmChain

  class Mm {
    const sizes: Sizes
    /** The tree, in order. */
    var nodes: seq<Node>
    /** The prev and next pointers of the nodes, by identity; a missing
        entry is NULL. */
    var prevOf: map<nat, nat>
    var nextOf: map<nat, nat>
    /** The identity the next node allocated gets. */
    var nextId: nat

    ghost predicate Valid()
      reads this
    {
      Good(sizes, nodes, prevOf, nextOf, nextId)
    }

    /** `pscnv_mm_init`: the two sentinels at start and end with one node
        between them covering [start, end), freed silently. */
    constructor (z: Sizes, start: nat, end: nat)
      requires SizesOk(z) && start <= end
      ensures Valid() && sizes == z && prevOf == map[] && nextOf == map[]
      ensures nodes == [Node(0, -1, start, 0, USED0), Node(1, 0, start, end - start, FREE), Node(2, 1, end, 0, USED0)]
    {
      sizes := z;
      nodes := [Node(0, -1, start, 0, USED0), Node(1, 0, start, end - start, USED0), Node(2, 1, end, 0, USED0)];
      prevOf := map[];
      nextOf := map[];
      nextId := 3;
      new;
      assert NodeOk(nodes, 0, 3) && NodeOk(nodes, 1, 3) && NodeOk(nodes, 2, 3);
      FreeNode(1);
    }

    /** `pscnv_mm_free_node` on interior node i: its next pointer and the
        prev pointer of the node it names are cleared, then its own prev
        pointer; it becomes free and takes in its free neighbours. The
        tree stays in shape, and i leaves the used nodes. */
    method FreeNode(i: nat)
      requires Valid() && 0 < i < |nodes| - 1
      modifies this
      ensures Valid() && nextId == old(nextId)
      ensures nodes == Freed(old(nodes), i)
      ensures (prevOf, nextOf) == Unlink(old(prevOf), old(nextOf), old(nodes)[i].id)
      ensures old(nodes)[i].id !in old(prevOf) && old(nodes)[i].id !in old(nextOf) ==>
        prevOf == old(prevOf) && nextOf == old(nextOf)
    {
      var x := nodes[i].id;
      var n := nodes[i].(ty := FREE);
      var a := i;
      if nodes[i - 1].ty == FREE {
        n := n.(start := nodes[i - 1].start, size := n.size + nodes[i - 1].size);
        a := i - 1;
      }
      var c := i + 1;
      if nodes[i + 1].ty == FREE {
        n := n.(size := n.size + nodes[i + 1].size);
        c := i + 2;
      }
      var prev, next := prevOf, nextOf;
      if x in next {
        prev := prev - {next[x]};
        next := next - {x};
      }
      if x in prev {
        prev := prev - {x};
      }
      var r := nodes[..a] + [n] + nodes[c..];
      assert r == Freed(nodes, i);
      nodes, prevOf, nextOf := r, prev, next;
      FreeStep(sizes, old(nodes), old(prevOf), old(nextOf), nextId, i);
    }

    /** The split of `pscnv_mm_alloc_single` on free interior node i
        around [s, e): the node takes the used type ty, then the part
        before s and the part after e become free nodes of their own. */
    method SplitNode(i: nat, s: nat, e: nat, ty: nat) returns (res: Node)
      requires Valid() && 0 < i < |nodes| - 1 && nodes[i].ty == FREE && ty <= USED1
      requires nodes[i].start <= s < e <= End(nodes[i])
      modifies this
      ensures Valid()
      ensures var mid := Split(old(nodes)[i], s, e, ty, old(nextId));
        nodes == old(nodes)[..i] + mid + old(nodes)[i + 1..] && nextId == old(nextId) + |mid| - 1
      ensures res == old(nodes)[i].(start := s, size := e - s, ty := ty)
      ensures prevOf == old(prevOf) && nextOf == old(nextOf)
    {
      SplitRetyped(nodes, i, s, e, ty, nextId);
      Retyped(sizes, nodes, prevOf, nextOf, nextId, i, ty);
      nodes := nodes[i := nodes[i].(ty := ty)];
      res := Cut(i, s, e);
    }

    /** The cuts of a used interior node with used neighbours: the parts
        before s and after e are split off as free nodes, and the node
        keeps [s, e). */
    method Cut(i: nat, s: nat, e: nat) returns (res: Node)
      requires Valid() && 0 < i < |nodes| - 1 && nodes[i].ty != FREE
      requires nodes[i - 1].ty != FREE && nodes[i + 1].ty != FREE
      requires nodes[i].start <= s < e <= End(nodes[i])
      modifies this
      ensures Valid() && prevOf == old(prevOf) && nextOf == old(nextOf)
      ensures var mid := Split(old(nodes)[i], s, e, old(nodes)[i].ty, old(nextId));
        nodes == old(nodes)[..i] + mid + old(nodes)[i + 1..] && nextId == old(nextId) + |mid| - 1
      ensures res == old(nodes)[i].(start := s, size := e - s)
    {
      SplitByCuts(nodes, i, s, e, nextId);
      var j := SplitOffLeft(i, s);
      SplitOffRight(j, e);
      res := nodes[j];
    }

    /** The left split: when s is past the start of used interior node j,
        a new node covering [start, s) is inserted, with the next fresh
        identity and type USED0, and freed silently; j keeps [s, end).
        Both neighbours being used, freeing only changes the new node's
        type. The node is then at k. */
    method SplitOffLeft(j: nat, s: nat) returns (k: nat)
      requires Valid() && 0 < j < |nodes| - 1 && nodes[j].ty != FREE && nodes[j - 1].ty != FREE
      requires nodes[j].start <= s <= End(nodes[j])
      modifies this
      ensures Valid() && prevOf == old(prevOf) && nextOf == old(nextOf)
      ensures nodes == CutLeft(old(nodes), j, s, old(nextId))
      ensures if s == old(nodes)[j].start then k == j && nextId == old(nextId) else k == j + 1 && nextId == old(nextId) + 1
    {
      if s == nodes[j].start {
        return j;
      }
      var n := nodes[j];
      var lsp := Node(nextId, 0, n.start, s - n.start, USED0);
      n := n.(start := s, size := End(n) - s);
      CutLeftSteps(sizes, nodes, prevOf, nextOf, nextId, j, s);
      nodes := Insert(nodes, j, [lsp, n]);
      nextId := nextId + 1;
      FreeNode(j);
      k := j + 1;
    }

    /** The right split: when e is before the end of used interior node
        j, a new node covering [e, end) is inserted after it and freed
        silently; j keeps [start, e). */
    method SplitOffRight(j: nat, e: nat)
      requires Valid() && 0 < j < |nodes| - 1 && nodes[j].ty != FREE && nodes[j + 1].ty != FREE
      requires nodes[j].start <= e <= End(nodes[j])
      modifies this
      ensures Valid() && prevOf == old(prevOf) && nextOf == old(nextOf)
      ensures nodes == CutRight(old(nodes), j, e, old(nextId))
      ensures nextId == if e == End(old(nodes)[j]) then old(nextId) else old(nextId) + 1
    {
      if e == End(nodes[j]) {
        return;
      }
      var n := nodes[j];
      var rsp := Node(nextId, 0, e, End(n) - e, USED0);
      n := n.(size := e - n.start);
      CutRightSteps(sizes, nodes, prevOf, nextOf, nextId, j, e);
      nodes := Insert(nodes, j, [n, rsp]);
      nextId := nextId + 1;
      FreeNode(j + 1);
    }

    /** The search of `pscnv_mm_alloc_single` for a free node to use: in
        address order, or in reverse order with FROMBACK, the first node
        whose window holds the minimum size. */
    method FindFit(size: nat, flags: nat, start: nat, end: nat) returns (r: Option<nat>)
      requires SizesOk(sizes) && |nodes| >= 2
      ensures r == Fit(sizes, nodes, size, flags, start, end)
    {
      if Bit(flags, FROMBACK) {
        var k := |nodes| - 1;
        while k > 1
          invariant 1 <= k <= |nodes| - 1
          invariant LastFit(sizes, nodes, k, size, flags, start, end) == LastFit(sizes, nodes, |nodes| - 1, size, flags, start, end)
        {
          if Fits(sizes, nodes, k - 1, size, flags, start, end) {
            return Some(k - 1);
          }
          k := k - 1;
        }
        return None;
      }
      var k := 1;
      while k < |nodes| - 1
        invariant 1 <= k <= |nodes| - 1
        invariant FirstFit(sizes, nodes, k, size, flags, start, end) == FirstFit(sizes, nodes, 1, size, flags, start, end)
      {
        if Fits(sizes, nodes, k, size, flags, start, end) {
          return Some(k);
        }
        k := k + 1;
      }
      return None;
    }

    /** `pscnv_mm_alloc_single`: the search picks a free node; its window
        is cut to the request (its end with FROMBACK) and the node is
        split around the piece, which takes the type of bit 0 of the
        flags. Without a node that fits it fails with ENOMEM and changes
        nothing. */
    method AllocSingle(size: nat, flags: nat, start: nat, end: nat) returns (r: int, res: Node)
      requires Valid() && size > 0
      modifies this
      ensures Valid() && prevOf == old(prevOf) && nextOf == old(nextOf)
      ensures var f := Fit(sizes, old(nodes), size, flags, start, end);
        (r == 0 <==> f.Some?) && (r != 0 ==> r == -ENOMEM && nodes == old(nodes) && nextId == old(nextId))
      ensures r == 0 ==>
        var i := Fit(sizes, old(nodes), size, flags, start, end).value;
        var p := Piece(Window(sizes, old(nodes), i, flags, start, end), size, Bit(flags, FROMBACK));
        res == old(nodes)[i].(start := p.0, size := p.1 - p.0, ty := flags % 2) &&
        nodes == old(nodes)[..i] + Split(old(nodes)[i], p.0, p.1, flags % 2, old(nextId)) + old(nodes)[i + 1..]
      ensures r == 0 ==> Used(nodes) == Used(old(nodes)) + {res} && res !in Used(old(nodes))
      ensures r == 0 ==> MinSize(size, flags) <= res.size <= size && start <= res.start && End(res) <= end
      ensures r == 0 ==> res.sentinel == 0 && res.ty == flags % 2 && res.id !in prevOf && res.id !in nextOf
    {
      var f := FindFit(size, flags, start, end);
      if f.None? {
        return -ENOMEM, nodes[0];
      }
      res := TakePiece(f.value, size, flags, start, end);
      r := 0;
    }

    /** The use of free interior node i that fits: the piece of its
        window is split out of it and becomes a used node, which was
        free and so has no links. */
    method TakePiece(i: nat, size: nat, flags: nat, start: nat, end: nat) returns (res: Node)
      requires Valid() && size > 0 && 0 < i < |nodes| - 1 && Fits(sizes, nodes, i, size, flags, start, end)
      modifies this
      ensures Valid() && prevOf == old(prevOf) && nextOf == old(nextOf)
      ensures var p := Piece(Window(sizes, old(nodes), i, flags, start, end), size, Bit(flags, FROMBACK));
        res == old(nodes)[i].(start := p.0, size := p.1 - p.0, ty := flags % 2) &&
        nodes == old(nodes)[..i] + Split(old(nodes)[i], p.0, p.1, flags % 2, old(nextId)) + old(nodes)[i + 1..]
      ensures Used(nodes) == Used(old(nodes)) + {res} && res !in Used(old(nodes))
      ensures MinSize(size, flags) <= res.size <= size && start <= res.start && End(res) <= end
      ensures res.sentinel == 0 && res.ty == flags % 2 && res.id !in prevOf && res.id !in nextOf
    {
      var w := Window(sizes, nodes, i, flags, start, end);
      var p := Piece(w, size, Bit(flags, FROMBACK));
      PieceFits(sizes, nodes, i, size, flags, start, end);
      SplitUsed(nodes, nextId, i, p.0, p.1, flags % 2);
      assert NodeOk(nodes, i, nextId);
      res := SplitNode(i, p.0, p.1, flags % 2);
    }

    /** `pscnv_mm_alloc`: size, start and end are rounded to the page size
        of the request and a size over 2^60 is refused with EINVAL. Then
        pieces are taken with `pscnv_mm_alloc_single` until the size is
        met, each linked after the one before; when a piece cannot be had,
        the pieces taken are freed again and the error is returned. The
        pieces are returned in the order they were linked, the first being
        the node the source hands back. */
    method Alloc(size: nat, flags: nat, start: nat, end: nat) returns (r: int, chain: seq<Node>)
      requires Valid()
      modifies this
      ensures Valid()
      ensures var q := PageSize(sizes, flags); (r == -EINVAL <==> RoundUp(size, q) > SIZE_LIMIT)
      ensures r == 0 || r == -ENOMEM || r == -EINVAL
      ensures r != 0 ==> chain == [] && Used(nodes) == Used(old(nodes)) && prevOf == old(prevOf) && nextOf == old(nextOf)
      ensures r == 0 ==> Grown(sizes, nodes, prevOf, nextOf, nextId, chain, Used(old(nodes)), old(prevOf), old(nextOf))
      ensures r == 0 ==> Total(chain) == RoundUp(size, PageSize(sizes, flags))
      ensures r == 0 ==> var q := PageSize(sizes, flags);
        forall n :: n in chain ==> Placed(sizes, n, flags, RoundUp(start, q), RoundDown(end, q))
      ensures var q := PageSize(sizes, flags); var total := RoundUp(size, q);
        !Bit(flags, FRAGOK) && 0 < total <= SIZE_LIMIT ==>
          (r == 0 <==> Fit(sizes, old(nodes), total, flags, RoundUp(start, q), RoundDown(end, q)).Some?) &&
          (r == 0 ==> |chain| == 1)
    {
      var q := PageSize(sizes, flags);
      var total := RoundUp(size, q);
      if total > SIZE_LIMIT {
        return -EINVAL, [];
      }
      r, chain := TakeAll(total, flags, RoundUp(start, q), RoundDown(end, q));
    }

    /** The loop of `pscnv_mm_alloc`, on a rounded size and range: pieces
        are taken and linked until the size is met, or, when a piece
        cannot be had, the ones taken are freed again and ENOMEM is
        returned. The last piece gets no next pointer. */
    method TakeAll(total: nat, flags: nat, s: nat, e: nat) returns (r: int, chain: seq<Node>)
      requires Valid()
      requires var q := PageSize(sizes, flags); total % q == 0 && s % q == 0 && e % q == 0
      modifies this
      ensures Valid() && (r == 0 || r == -ENOMEM)
      ensures r != 0 ==> chain == [] && Used(nodes) == Used(old(nodes)) && prevOf == old(prevOf) && nextOf == old(nextOf)
      ensures r == 0 ==> Grown(sizes, nodes, prevOf, nextOf, nextId, chain, Used(old(nodes)), old(prevOf), old(nextOf))
      ensures r == 0 ==> Total(chain) == total && forall n :: n in chain ==> Placed(sizes, n, flags, s, e)
      ensures !Bit(flags, FRAGOK) && 0 < total ==>
        (r == 0 <==> Fit(sizes, old(nodes), total, flags, s, e).Some?) && (r == 0 ==> |chain| == 1)
    {
      ghost var ns0, used0, prev0, next0 := nodes, Used(nodes), prevOf, nextOf;
      var failed, last, chain0, rem := TakeLoop(total, flags, s, e);
      r, chain := Finish(failed, last, chain0, ns0, rem, total, flags, s, e, used0, prev0, next0);
    }

    /** The rounds of `pscnv_mm_alloc`: pieces are taken while some of
        the size is left, until a round finds none. */
    method TakeLoop(total: nat, flags: nat, s: nat, e: nat)
      returns (failed: bool, last: Option<nat>, chain: seq<Node>, rem: nat)
      requires Valid()
      requires var q := PageSize(sizes, flags); total % q == 0 && s % q == 0 && e % q == 0
      modifies this
      ensures Taking(sizes, nodes, prevOf, nextOf, nextId, chain, Used(old(nodes)), old(prevOf), old(nextOf),
                     old(nodes), rem, total, flags, s, e)
      ensures last == if chain == [] then None else Some(chain[|chain| - 1].id)
      ensures failed ==> !Bit(flags, FRAGOK) ==> Fit(sizes, old(nodes), total, flags, s, e).None?
      ensures failed || rem == 0
    {
      ghost var ns0, used0, prev0, next0 := nodes, Used(nodes), prevOf, nextOf;
      chain := [];
      rem := total;
      last := None;
      failed := false;
      TakingStart(sizes, nodes, prevOf, nextOf, nextId, total, flags, s, e);
      while rem > 0 && !failed
        invariant Taking(sizes, nodes, prevOf, nextOf, nextId, chain, used0, prev0, next0, ns0, rem, total, flags, s, e)
        invariant last == if chain == [] then None else Some(chain[|chain| - 1].id)
        invariant failed ==> rem > 0 && (!Bit(flags, FRAGOK) ==> Fit(sizes, ns0, total, flags, s, e).None?)
        decreases rem, if failed then 0 else 1
      {
        failed, rem, last, chain := TakeRound(rem, flags, s, e, last, chain, ns0, total, used0, prev0, next0);
      }
    }

    /** The end of `pscnv_mm_alloc`: after a failed round the pieces
        taken are freed again and ENOMEM is returned; otherwise the last
        piece gets no next pointer. */
    method Finish(failed: bool, last: Option<nat>, chain0: seq<Node>, ghost ns0: seq<Node>, ghost rem: nat,
                  ghost total: nat, ghost flags: nat, ghost s: nat, ghost e: nat,
                  ghost used0: set<Node>, ghost prev0: map<nat, nat>, ghost next0: map<nat, nat>)
      returns (r: int, chain: seq<Node>)
      requires Taking(sizes, nodes, prevOf, nextOf, nextId, chain0, used0, prev0, next0, ns0, rem, total, flags, s, e)
      requires last == if chain0 == [] then None else Some(chain0[|chain0| - 1].id)
      requires failed ==> !Bit(flags, FRAGOK) ==> Fit(sizes, ns0, total, flags, s, e).None?
      requires failed || rem == 0
      modifies this
      ensures Valid() && (r == 0 || r == -ENOMEM)
      ensures r != 0 ==> chain == [] && Used(nodes) == used0 && prevOf == prev0 && nextOf == next0
      ensures r == 0 ==> Grown(sizes, nodes, prevOf, nextOf, nextId, chain, used0, prev0, next0)
      ensures r == 0 ==> Total(chain) == total && forall n :: n in chain ==> Placed(sizes, n, flags, s, e)
      ensures !Bit(flags, FRAGOK) && 0 < total ==>
        (r == 0 <==> Fit(sizes, ns0, total, flags, s, e).Some?) && (r == 0 ==> |chain| == 1)
    {
      if failed {
        Rollback(last, chain0, used0, prev0, next0);
        return -ENOMEM, [];
      }
      chain := chain0;
      TakingDone(sizes, nodes, prevOf, nextOf, nextId, chain, used0, prev0, next0, ns0, total, flags, s, e);
      if last.Some? {
        GrownEnd(sizes, nodes, prevOf, nextOf, nextId, chain, used0, prev0, next0);
        nextOf := nextOf - {last.value};
      }
      r := 0;
    }

    /** One round of the loop of `pscnv_mm_alloc`, on the loop's state:
        either a piece is taken and linked, which advances the loop, or
        none can be had, nothing changes, and without FRAGOK the whole
        request does not fit. */
    method TakeRound(rem: nat, flags: nat, s: nat, e: nat, last: Option<nat>, chain: seq<Node>,
                     ghost ns0: seq<Node>, ghost total: nat,
                     ghost used0: set<Node>, ghost prev0: map<nat, nat>, ghost next0: map<nat, nat>)
      returns (failed: bool, rem': nat, last': Option<nat>, chain': seq<Node>)
      requires Taking(sizes, nodes, prevOf, nextOf, nextId, chain, used0, prev0, next0, ns0, rem, total, flags, s, e)
      requires rem > 0 && last == if chain == [] then None else Some(chain[|chain| - 1].id)
      requires var q := PageSize(sizes, flags); s % q == 0 && e % q == 0
      modifies this
      ensures Taking(sizes, nodes, prevOf, nextOf, nextId, chain', used0, prev0, next0, ns0, rem', total, flags, s, e)
      ensures last' == if chain' == [] then None else Some(chain'[|chain'| - 1].id)
      ensures failed ==> rem' == rem > 0 && (!Bit(flags, FRAGOK) ==> Fit(sizes, ns0, total, flags, s, e).None?)
      ensures !failed ==> rem' < rem
    {
      ghost var ns, P, N, nid := nodes, prevOf, nextOf, nextId;
      var ret, cur := TakeLinked(rem, flags, s, e, last, chain, used0, prev0, next0);
      if ret != 0 {
        if !Bit(flags, FRAGOK) {
          TakingFirst(sizes, ns, P, N, nid, chain, used0, prev0, next0, ns0, rem, total, flags, s, e);
        }
        return true, rem, last, chain;
      }
      TakingStep(sizes, ns, P, N, nid, chain, used0, prev0, next0, ns0, rem, total, flags, s, e,
                 nodes, prevOf, nextOf, nextId, cur);
      failed, rem', last', chain' := false, rem - cur.size, Some(cur.id), chain + [cur];
    }

    /** The taking and linking in a round of `pscnv_mm_alloc`: a piece of at most rem
        is taken within [s, e) and linked after the last one, if any (the
        first gets no prev pointer). Without a piece, nothing changes. */
    method TakeLinked(rem: nat, flags: nat, s: nat, e: nat, last: Option<nat>, ghost chain: seq<Node>,
                      ghost used0: set<Node>, ghost prev0: map<nat, nat>, ghost next0: map<nat, nat>)
      returns (ret: int, cur: Node)
      requires Grown(sizes, nodes, prevOf, nextOf, nextId, chain, used0, prev0, next0) && rem > 0
      requires last == if chain == [] then None else Some(chain[|chain| - 1].id)
      requires var q := PageSize(sizes, flags); rem % q == 0 && s % q == 0 && e % q == 0
      modifies this
      ensures ret == 0 <==> Fit(sizes, old(nodes), rem, flags, s, e).Some?
      ensures ret != 0 ==> ret == -ENOMEM && nodes == old(nodes) && prevOf == old(prevOf) && nextOf == old(nextOf) && nextId == old(nextId)
      ensures ret == 0 ==> Grown(sizes, nodes, prevOf, nextOf, nextId, chain + [cur], used0, prev0, next0)
      ensures ret == 0 ==> MinSize(rem, flags) <= cur.size <= rem && Placed(sizes, cur, flags, s, e)
    {
      ghost var ns0, P, N := nodes, prevOf, nextOf;
      ret, cur := AllocSingle(rem, flags, s, e);
      if ret != 0 {
        return;
      }
      ghost var i := Fit(sizes, ns0, rem, flags, s, e).value;
      ghost var p := Piece(Window(sizes, ns0, i, flags, s, e), rem, Bit(flags, FROMBACK));
      PieceAligned(sizes, ns0, i, rem, flags, s, e);
      assert cur.start == p.0 && End(cur) == p.1;
      assert Placed(sizes, cur, flags, s, e);
      ghost var ns1, nid1 := nodes, nextId;
      assert Good(sizes, ns1, P, N, nid1) && Used(ns1) == Used(ns0) + {cur};
      if last.Some? {
        nextOf := nextOf[last.value := cur.id];
        prevOf := prevOf[cur.id := last.value];
      } else {
        prevOf := prevOf - {cur.id};
      }
      assert nodes == ns1 && nextId == nid1;
      GrowStep(sizes, ns0, P, N, old(nextId), chain, used0, prev0, next0, ns1, nid1, cur, prevOf, nextOf);
    }

    /** The undoing of `pscnv_mm_alloc` when a piece cannot be had: from
        the last piece back along the prev pointers, each piece is freed
        silently. The used nodes and the links are as before the
        allocation started. */
    method Rollback(last: Option<nat>, ghost chain: seq<Node>, ghost used0: set<Node>,
                    ghost prev0: map<nat, nat>, ghost next0: map<nat, nat>)
      requires Grown(sizes, nodes, prevOf, nextOf, nextId, chain, used0, prev0, next0)
      requires last == if chain == [] then None else Some(chain[|chain| - 1].id)
      modifies this
      ensures Valid() && Used(nodes) == used0 && prevOf == prev0 && nextOf == next0
    {
      ghost var k: nat := |chain|;
      UndoStart(sizes, nodes, prevOf, nextOf, nextId, chain, used0, prev0, next0);
      var cur := last;
      while cur.Some?
        invariant k <= |chain| && cur == (if k == 0 then None else Some(chain[k - 1].id))
        invariant UndoneTo(sizes, nodes, prevOf, nextOf, nextId, chain, k, used0, prev0, next0)
        decreases k
      {
        cur := UndoPiece(cur.value, chain, k, used0, prev0, next0);
        k := k - 1;
      }
      UndoDone(sizes, nodes, prevOf, nextOf, nextId, chain, used0, prev0, next0);
    }

    /** One step of the undoing: the k-th piece, x, is freed silently,
        after its prev pointer, the piece before it if any, is read. */
    method UndoPiece(x: nat, ghost chain: seq<Node>, ghost k: nat, ghost used0: set<Node>,
                     ghost prev0: map<nat, nat>, ghost next0: map<nat, nat>) returns (prev: Option<nat>)
      requires FreshChain(chain, prev0, next0) && 0 < k <= |chain| && x == chain[k - 1].id
      requires UndoneTo(sizes, nodes, prevOf, nextOf, nextId, chain, k, used0, prev0, next0) && used0 !! Elems(chain)
      modifies this
      ensures UndoneTo(sizes, nodes, prevOf, nextOf, nextId, chain, k - 1, used0, prev0, next0)
      ensures prev == if k == 1 then None else Some(chain[k - 2].id)
    {
      UndoFind(sizes, nodes, prevOf, nextOf, nextId, chain, k, used0, prev0, next0);
      prev := if x in prevOf then Some(prevOf[x]) else None;
      var i := IndexOf(nodes, x);
      UndoFree(sizes, nodes, prevOf, nextOf, nextId, chain, k, used0, prev0, next0, i);
      FreeNode(i);
    }
  
    /** `pscnv_mm_free`, given node x: freeing a free node is refused
        and changes nothing. Otherwise the prev pointers are followed
        back to the head of the allocation, then each piece is freed in
        turn along the next pointers, each next pointer being read before
        its node is freed. */
    method Free(x: nat, ghost c: seq<nat>)
      requires Valid() && Freeable(nodes, prevOf, nextOf, x, c)
      modifies this
      ensures Valid() && nextId == old(nextId)
      ensures old(nodes)[IndexOf(old(nodes), x)].ty == FREE ==>
        nodes == old(nodes) && prevOf == old(prevOf) && nextOf == old(nextOf)
      ensures old(nodes)[IndexOf(old(nodes), x)].ty != FREE ==>
        Used(nodes) == (set n | n in Used(old(nodes)) && n.id !in IdSet(c)) &&
        prevOf == old(prevOf) - IdSet(c) && nextOf == old(nextOf) - IdSet(c)
    {
      var i := IndexOf(nodes, x);
      if nodes[i].ty == FREE {
        return;
      }
      ghost var k :| 0 <= k < |c| && c[k] == x;
      var h := x;
      while h in prevOf
        invariant 0 <= k < |c| && h == c[k]
        decreases k
      {
        h := prevOf[h];
        k := k - 1;
      }
      assert k == 0;
      FreeStart(sizes, nodes, prevOf, nextOf, nextId, c);
      FreeChain(h, c);
    }

    /** The second loop of `pscnv_mm_free`: from head h of allocation c,
        each piece is freed, its next pointer read first. */
    method FreeChain(h: nat, ghost c: seq<nat>)
      requires |c| > 0 && h == c[0]
      requires FreedTo(sizes, nodes, prevOf, nextOf, nextId, c, 0, Used(nodes), prevOf, nextOf)
      modifies this
      ensures Valid() && nextId == old(nextId)
      ensures Used(nodes) == (set n | n in Used(old(nodes)) && n.id !in IdSet(c))
      ensures prevOf == old(prevOf) - IdSet(c) && nextOf == old(nextOf) - IdSet(c)
    {
      ghost var used0, prev0, next0 := Used(nodes), prevOf, nextOf;
      ghost var j := 0;
      var cur := Some(h);
      while cur.Some?
        invariant FreedTo(sizes, nodes, prevOf, nextOf, nextId, c, j, used0, prev0, next0)
        invariant cur == if j < |c| then Some(c[j]) else None
        invariant nextId == old(nextId)
        decreases |c| - j
      {
        FreedAt(sizes, nodes, prevOf, nextOf, nextId, c, j, used0, prev0, next0);
        var next := if cur.value in nextOf then Some(nextOf[cur.value]) else None;
        var i := IndexOf(nodes, cur.value);
        FreedNext(sizes, nodes, prevOf, nextOf, nextId, c, j, used0, prev0, next0, i);
        FreeNode(i);
        cur := next;
        j := j + 1;
      }
      FreedAll(sizes, nodes, prevOf, nextOf, nextId, c, used0, prev0, next0);
    }
  
    /** `pscnv_mm_find_node`: the search of the tree for the node holding
        address addr, going left of a node when addr is below its start
        and right when it is at or past its end. Here the search halves
        the nodes in address order. */
    method FindNode(addr: nat) returns (r: Option<Node>)
      requires Valid()
      ensures r.Some? ==> r.value in nodes && r.value.start <= addr < End(r.value)
      ensures r.None? <==> forall k :: 0 <= k < |nodes| ==> !(nodes[k].start <= addr < End(nodes[k]))
    {
      var lo, hi := 0, |nodes|;
      while lo < hi
        invariant 0 <= lo <= hi <= |nodes|
        invariant forall k :: 0 <= k < lo ==> End(nodes[k]) <= addr
        invariant forall k :: hi <= k < |nodes| ==> addr < nodes[k].start
        decreases hi - lo
      {
        var mid := (lo + hi) / 2;
        if addr < nodes[mid].start {
          forall k | mid < k < |nodes|
            ensures addr < nodes[k].start
          {
            Ordered(nodes, nextId, mid, k);
          }
          hi := mid;
        } else if addr >= End(nodes[mid]) {
          forall k | 0 <= k < mid
            ensures End(nodes[k]) <= addr
          {
            Ordered(nodes, nextId, k, mid);
          }
          lo := mid + 1;
        } else {
          return Some(nodes[mid]);
        }
      }
      return None;
    }
  }
}
