/** Byte offsets, byte ranges and seeks over the Merkle tree (src/tree/merkle_tree.rs). */
module Offsets {
  import opened Common
  import opened FlatTree
  import opened Hashes
  import opened Changesets
  import opened Verify
  import opened Soundness
  import opened Tops
  import opened Lengths
  import opened Completeness
  import opened Prover
  import opened VerifyHonest

  /** Byte at which block `i` starts: the lengths of all blocks before it. */
  function ByteStart(log: seq<Block>, i: nat): nat {
    if i == 0 then 0 else ByteStart(log, i - 1) + |BlockAt(log, i - 1)|
  }

  /** A subtree's byte length is the distance between its two ends. */
  lemma {:induction false} SubtreeBytes(log: seq<Block>, p: Pos)
    ensures ByteStart(log, Lo(p)) + BytesAt(log, p) == ByteStart(log, Hi(p))
    decreases p.depth
  {
    if p.depth > 0 {
      ChildSpans(p);
      SubtreeBytes(log, LeftChild(p));
      SubtreeBytes(log, RightChild(p));
    }
  }

  /** The roots' byte lengths add up to the byte length of the log. */
  lemma {:induction false} RootsBytes(log: seq<Block>, n: nat, k: nat)
    requires k <= |Roots(n)|
    ensures TotalLength(NodesAt(log, Roots(n))[..k]) == ByteStart(log, Boundary(n, k))
  {
    var roots := NodesAt(log, Roots(n));
    if k == 0 {
      RootsStart(n);
    } else {
      RootsBytes(log, n, k - 1);
      RootsAdjacent(n, k - 1);
      SubtreeBytes(log, Roots(n)[k - 1]);
      TotalLengthStep(roots, k - 1);
    }
  }

  lemma {:induction false} TotalLengthStep(nodes: seq<Node>, k: nat)
    requires k < |nodes|
    ensures TotalLength(nodes[..k + 1]) == TotalLength(nodes[..k]) + nodes[k].length
  {
    assert nodes[..k + 1] == nodes[..k] + [nodes[k]];
    TotalLengthSnoc(nodes[..k], nodes[k]);
  }

  lemma {:induction false} TotalBytes(log: seq<Block>, n: nat)
    ensures TotalLength(NodesAt(log, Roots(n))) == ByteStart(log, n)
  {
    var roots := NodesAt(log, Roots(n));
    RootsBytes(log, n, |roots|);
    assert roots[..|roots|] == roots;
  }

  /** Roots, length and known nodes are the writer's, byte lengths included. */
  ghost predicate Exact(log: seq<Block>, t: Tree) {
    && t.length <= |log| && t.roots == NodesAt(log, Roots(t.length))
    && ExactNodes(log, t.view)
  }

  /** Every left subtree next to the path down to block `i` is known. */
  ghost predicate PathKnown(t: Tree, i: nat) {
    forall q: Pos :: q.depth > 0 && HasLeaf(RightChild(q), i) && Hi(q) <= t.length ==> LeftChild(q) in t.view
  }

  /** The walk from `it` down to block `i`, adding up the subtrees passed on the left. */
  function WalkFrom(view: View, it: Pos, i: nat, offset: nat): Result<nat>
    decreases it.depth
  {
    if it.depth == 0 then Ok(offset)
    else if Index(Leaf(i)) < Index(it) then WalkFrom(view, LeftChild(it), i, offset)
    else
      var left := RequiredNode(view, LeftChild(it));
      if left.Err? then Err(left.error) else WalkFrom(view, RightChild(it), i, offset + left.value.length)
  }

  /** Which way to go, and what lies to the left. */
  lemma {:induction false} Turn(log: seq<Block>, it: Pos, i: nat)
    requires HasLeaf(it, i) && it.depth > 0
    ensures Index(Leaf(i)) < Index(it) ==> HasLeaf(LeftChild(it), i) && Lo(LeftChild(it)) == Lo(it)
    ensures Index(Leaf(i)) >= Index(it) ==>
              HasLeaf(RightChild(it), i)
              && ByteStart(log, Lo(RightChild(it))) == ByteStart(log, Lo(it)) + BytesAt(log, LeftChild(it))
    ensures Hi(LeftChild(it)) <= Hi(it) && Hi(RightChild(it)) <= Hi(it)
  {
    ChildSpans(it);
    MidIndex(it, i);
    SubtreeBytes(log, LeftChild(it));
  }

  /** With exact lengths the walk gives the block's start. */
  lemma {:induction false} WalkIsStart(log: seq<Block>, view: View, it: Pos, i: nat)
    requires HasLeaf(it, i) && ExactNodes(log, view)
    ensures var r := WalkFrom(view, it, i, ByteStart(log, Lo(it))); r.Ok? ==> r.value == ByteStart(log, i)
    decreases it.depth
  {
    if it.depth > 0 {
      Turn(log, it, i);
      if Index(Leaf(i)) < Index(it) {
        WalkIsStart(log, view, LeftChild(it), i);
      } else if RequiredNode(view, LeftChild(it)).Ok? {
        WalkIsStart(log, view, RightChild(it), i);
      }
    }
  }

  /** It fails only for an unknown left subtree. */
  lemma {:induction false} WalkSucceeds(t: Tree, it: Pos, i: nat, offset: nat)
    requires HasLeaf(it, i) && Hi(it) <= t.length && PathKnown(t, i)
    ensures WalkFrom(t.view, it, i, offset).Ok?
    decreases it.depth
  {
    if it.depth > 0 {
      Turn([], it, i);
      if Index(Leaf(i)) < Index(it) {
        WalkSucceeds(t, LeftChild(it), i, offset);
      } else {
        WalkSucceeds(t, RightChild(it), i, offset + RequiredNode(t.view, LeftChild(it)).value.length);
      }
    }
  }

  /** It needs every left subtree next to its way. */
  lemma {:induction false} WalkNeeds(view: View, it: Pos, i: nat, offset: nat, q: Pos)
    requires HasLeaf(it, i) && WalkFrom(view, it, i, offset).Ok?
    requires q.depth > 0 && HasLeaf(RightChild(q), i) && Within(q, it)
    ensures LeftChild(q) in view
    decreases it.depth
  {
    Turn([], it, i);
    ChildSpans(it);
    MidIndex(it, i);
    if q != it {
      var next := if Index(Leaf(i)) < Index(it) then LeftChild(it) else RightChild(it);
      ChildSpans(q);
      SharedLeafNests(q, next, i);
      var more := if Index(Leaf(i)) < Index(it) then 0 else RequiredNode(view, LeftChild(it)).value.length;
      WalkNeeds(view, next, i, offset + more, q);
    } else if Index(Leaf(i)) < Index(it) {
      ChildSpans(q);
      assert false;
    }
  }

  method WalkDown(t: Tree, root: Pos, i: nat, start: nat) returns (r: Result<nat>)
    requires HasLeaf(root, i)
    ensures r == WalkFrom(t.view, root, i, start)
  {
    var it, offset: nat := root, start;
    while it != Leaf(i)
      invariant HasLeaf(it, i) && WalkFrom(t.view, it, i, offset) == WalkFrom(t.view, root, i, start)
      decreases it.depth
    {
      LeafBelow(it, i);
      ChildSpans(it);
      MidIndex(it, i);
      if Index(Leaf(i)) < Index(it) {
        it := LeftChild(it);
      } else {
        var left := RequiredNode(t.view, LeftChild(it));
        if left.Err? {
          return Err(left.error);
        }
        offset := offset + left.value.length;
        it := RightChild(it);
      }
    }
    return Ok(offset);
  }

  lemma {:induction false} LeafBelow(p: Pos, i: nat)
    requires HasLeaf(p, i) && p != Leaf(i)
    ensures p.depth > 0
  {
  }

  /** Past the roots that end before the block, then down from the root over it. */
  function OffsetFrom(view: View, roots: seq<Node>, leaf: nat, head: int, offset: nat): Result<nat> {
    if roots == [] then Err(BadArgument)
    else
      var next := head + 2 * (Index(roots[0].pos) - head + 1);
      if 2 * leaf >= next then OffsetFrom(view, roots[1..], leaf, next, offset + roots[0].length)
      else WalkFrom(view, roots[0].pos, leaf, offset)
  }

  /** Where the tree's roots and nodes put the start of a block. */
  function OffsetIn(t: Tree, leaf: nat): Result<nat> {
    OffsetFrom(t.view, t.roots, leaf, 0, 0)
  }

  /** One root further, or down from this one. */
  lemma {:induction false} OffsetStep(log: seq<Block>, t: Tree, leaf: nat, k: nat, offset: nat)
    requires t.roots == NodesAt(log, Roots(t.length)) && k < |t.roots| && Boundary(t.length, k) <= leaf
    ensures var root := t.roots[k];
            var next := Boundary(t.length, k + 1);
            && root == NodeAt(log, root.pos) && Lo(root.pos) == Boundary(t.length, k)
            && next == Hi(root.pos) <= t.length
            && 2 * next == 2 * Boundary(t.length, k) + 2 * (Index(root.pos) - 2 * Boundary(t.length, k) + 1)
            && OffsetFrom(t.view, t.roots[k..], leaf, 2 * Boundary(t.length, k), offset)
               == if leaf >= next then OffsetFrom(t.view, t.roots[k + 1..], leaf, 2 * next, offset + root.length)
                  else WalkFrom(t.view, root.pos, leaf, offset)
  {
    RootsAdjacent(t.length, k);
    RootsSpan(t.length, k);
    IndexSpan(t.roots[k].pos);
    assert t.roots[k..][0] == t.roots[k] && t.roots[k..][1..] == t.roots[k + 1..];
  }

  /** With exact lengths the offset is the block's start; a block past the end is refused. */
  lemma {:induction false} OffsetArrives(log: seq<Block>, t: Tree, leaf: nat, k: nat)
    requires t.roots == NodesAt(log, Roots(t.length)) && k <= |t.roots| && Boundary(t.length, k) <= leaf
    ensures var r := OffsetFrom(t.view, t.roots[k..], leaf, 2 * Boundary(t.length, k),
                                ByteStart(log, Boundary(t.length, k)));
            && (leaf >= t.length ==> r == Err(BadArgument))
            && (ExactNodes(log, t.view) && r.Ok? ==> r.value == ByteStart(log, leaf))
    decreases |t.roots| - k
  {
    if k < |t.roots| {
      OffsetStep(log, t, leaf, k, ByteStart(log, Boundary(t.length, k)));
      SubtreeBytes(log, t.roots[k].pos);
      if leaf >= Boundary(t.length, k + 1) {
        OffsetArrives(log, t, leaf, k + 1);
      } else if ExactNodes(log, t.view) {
        WalkIsStart(log, t.view, t.roots[k].pos, leaf);
      }
    }
  }

  /** It fails only on an unknown path. */
  lemma {:induction false} OffsetSucceeds(log: seq<Block>, t: Tree, leaf: nat, k: nat, offset: nat)
    requires t.roots == NodesAt(log, Roots(t.length)) && k <= |t.roots| && Boundary(t.length, k) <= leaf < t.length
    requires PathKnown(t, leaf)
    ensures OffsetFrom(t.view, t.roots[k..], leaf, 2 * Boundary(t.length, k), offset).Ok?
    decreases |t.roots| - k
  {
    OffsetStep(log, t, leaf, k, offset);
    if leaf >= Boundary(t.length, k + 1) {
      OffsetSucceeds(log, t, leaf, k + 1, offset + t.roots[k].length);
    } else {
      WalkSucceeds(t, t.roots[k].pos, leaf, offset);
    }
  }

  /** A subtree of the tree lies under the root over its blocks. */
  lemma {:induction false} UnderThisRoot(n: nat, k: nat, q: Pos, i: nat)
    requires k < |Roots(n)| && HasLeaf(Roots(n)[k], i) && HasLeaf(q, i) && Hi(q) <= n
    ensures Within(q, Roots(n)[k])
  {
    var r := Roots(n)[k];
    if r.depth < q.depth {
      RootsMaximal(n, k);
      SharedLeafNests(r, q, i);
      WithinSpan(r, q);
      WithinSpan(Parent(r), q);
      assert false;
    }
    SharedLeafNests(q, r, i);
  }

  /** It succeeds only on a known path. */
  lemma {:induction false} OffsetNeeds(log: seq<Block>, t: Tree, leaf: nat, k: nat, offset: nat)
    requires t.roots == NodesAt(log, Roots(t.length)) && k <= |t.roots| && Boundary(t.length, k) <= leaf < t.length
    requires OffsetFrom(t.view, t.roots[k..], leaf, 2 * Boundary(t.length, k), offset).Ok?
    ensures PathKnown(t, leaf)
    decreases |t.roots| - k
  {
    OffsetStep(log, t, leaf, k, offset);
    if leaf >= Boundary(t.length, k + 1) {
      OffsetNeeds(log, t, leaf, k + 1, offset + t.roots[k].length);
    } else {
      forall q: Pos | q.depth > 0 && HasLeaf(RightChild(q), leaf) && Hi(q) <= t.length
        ensures LeftChild(q) in t.view
      {
        ChildSpans(q);
        UnderThisRoot(t.length, k, q, leaf);
        WalkNeeds(t.view, t.roots[k].pos, leaf, offset, q);
      }
    }
  }

  /** Offsets of known nodes never fail, whatever the lengths; with exact lengths they are right. */
  lemma {:induction false} OffsetIsStart(log: seq<Block>, t: Tree, p: Pos)
    requires t.roots == NodesAt(log, Roots(t.length))
    ensures var r := OffsetIn(t, Lo(p));
            && (Lo(p) >= t.length ==> r == Err(BadArgument))
            && (ExactNodes(log, t.view) && r.Ok? ==> r.value == ByteStart(log, Lo(p)))
            && (Lo(p) < t.length ==> (r.Ok? <==> PathKnown(t, Lo(p))))
            && (Trusted(log, t) && p in t.view ==> r.Ok?)
  {
    RootsStart(t.length);
    OffsetArrives(log, t, Lo(p), 0);
    assert t.roots[0..] == t.roots;
    if Trusted(log, t) && p in t.view {
      KnownPath(log, t, p);
    }
    if Lo(p) < t.length && PathKnown(t, Lo(p)) {
      OffsetSucceeds(log, t, Lo(p), 0, 0);
    }
    if Lo(p) < t.length && OffsetIn(t, Lo(p)).Ok? {
      OffsetNeeds(log, t, Lo(p), 0, 0);
    }
  }

  /** `byte_offset_from_nodes`: where the blocks under `p` start; it never fails for a known node of a trusted tree. */
  method ByteOffset(t: Tree, p: Pos, ghost log: seq<Block>) returns (r: Result<nat>)
    requires t.roots == NodesAt(log, Roots(t.length))
    ensures r == OffsetIn(t, Lo(p))
    ensures Lo(p) >= t.length ==> r == Err(BadArgument)
    ensures ExactNodes(log, t.view) && r.Ok? ==> r.value == ByteStart(log, Lo(p))
    ensures Lo(p) < t.length ==> (r.Ok? <==> PathKnown(t, Lo(p)))
    ensures Trusted(log, t) && p in t.view ==> r.Ok?
  {
    r := OffsetOfBlock(t, Lo(p), log);
    OffsetIsStart(log, t, p);
  }

  method OffsetOfBlock(t: Tree, leaf: nat, ghost log: seq<Block>) returns (r: Result<nat>)
    requires t.roots == NodesAt(log, Roots(t.length))
    ensures r == OffsetIn(t, leaf)
  {
    var head, offset: nat := 0, 0;
    RootsStart(t.length);
    assert t.roots[0..] == t.roots;
    for k := 0 to |t.roots|
      invariant head == 2 * Boundary(t.length, k) && Boundary(t.length, k) <= leaf
      invariant OffsetFrom(t.view, t.roots[k..], leaf, head, offset) == OffsetIn(t, leaf)
    {
      var root := t.roots[k];
      OffsetStep(log, t, leaf, k, offset);
      head := head + 2 * (Index(root.pos) - head + 1);
      if 2 * leaf >= head {
        offset := offset + root.length;
        continue;
      }
      r := WalkDown(t, root.pos, leaf, offset);
      return;
    }
    return Err(BadArgument);
  }

  /** What a known node needs for its offset is known, because the known nodes are closed. */
  lemma {:induction false} KnownPath(log: seq<Block>, t: Tree, p: Pos)
    requires Trusted(log, t) && p in t.view
    ensures PathKnown(t, Lo(p)) && Lo(p) < t.length
  {
    var r := KnownUnderRoot(log, t, p);
    ParentSpan(p);
    forall q: Pos | q.depth > 0 && HasLeaf(RightChild(q), Lo(p)) && Hi(q) <= t.length
      ensures LeftChild(q) in t.view
    {
      KnownLeft(log, t, p, q);
    }
  }

  /** Next to a known block the way is known too. */
  lemma {:induction false} NextPathKnown(log: seq<Block>, t: Tree, i: nat)
    requires Trusted(log, t) && Leaf(i) in t.view
    ensures PathKnown(t, i + 1)
  {
    KnownPath(log, t, Leaf(i));
    forall q: Pos | q.depth > 0 && HasLeaf(RightChild(q), i + 1) && Hi(q) <= t.length
      ensures LeftChild(q) in t.view
    {
      NextLeftKnown(log, t, i, q);
    }
  }

  lemma {:induction false} NextLeftKnown(log: seq<Block>, t: Tree, i: nat, q: Pos)
    requires Trusted(log, t) && Leaf(i) in t.view && PathKnown(t, i)
    requires q.depth > 0 && HasLeaf(RightChild(q), i + 1) && Hi(q) <= t.length
    ensures LeftChild(q) in t.view
  {
    ChildSpans(q);
    if !HasLeaf(RightChild(q), i) {
      LeafWithin(i, LeftChild(q));
      assert Parent(LeftChild(q)) == q;
      AncestorKnown(log, t, Leaf(i), LeftChild(q));
    }
  }

  lemma {:induction false} FirstPathKnown(t: Tree)
    ensures PathKnown(t, 0)
  {
    forall q: Pos | q.depth > 0 && HasLeaf(RightChild(q), 0)
      ensures false
    {
      ChildSpans(q);
    }
  }

  lemma {:induction false} KnownLeft(log: seq<Block>, t: Tree, p: Pos, q: Pos)
    requires Trusted(log, t) && p in t.view
    requires q.depth > 0 && HasLeaf(RightChild(q), Lo(p)) && Hi(q) <= t.length
    ensures LeftChild(q) in t.view
  {
    var c := RightChild(q);
    ChildSpans(q);
    ParentSpan(p);
    assert Parent(c) == q && Sibling(c) == LeftChild(q);
    if c.depth < p.depth {
      SharedLeafNests(q, p, Lo(p));
      WithinSpan(q, p);
      assert false;
    }
    SharedLeafNests(p, c, Lo(p));
    AncestorKnown(log, t, p, c);
    if c in Positions(t.roots) {
      RootInside(log, t.length, c);
      assert false;
    }
  }

  /** All nodes of the tree above a known node are known. */
  lemma {:induction false} AncestorKnown(log: seq<Block>, t: Tree, p: Pos, c: Pos)
    requires Trusted(log, t) && p in t.view && Within(p, c) && Hi(Parent(c)) <= t.length
    ensures c in t.view
    decreases c.depth - p.depth
  {
    if p != c {
      if p in Positions(t.roots) {
        WithinSpan(p, c);
        RootCannotGrow(log, t.length, p);
        WithinSpan(Parent(p), c);
        ParentSpan(c);
      } else {
        assert Parent(p) in t.view;
        WithinSpan(p, c);
        AncestorKnown(log, t, Parent(p), c);
      }
    }
  }

  lemma {:induction false} RootCannotGrow(log: seq<Block>, n: nat, p: Pos)
    requires p in Positions(NodesAt(log, Roots(n)))
    ensures n < Hi(Parent(p))
  {
    var roots := NodesAt(log, Roots(n));
    var x :| x in roots && x.pos == p;
    var i :| 0 <= i < |roots| && roots[i] == x;
    RootsMaximal(n, i);
  }

  datatype ByteRange = ByteRange(index: nat, length: nat)

  /** `byte_range`: where block `i` is in the data store. */
  method BlockRange(t: Tree, i: nat, ghost log: seq<Block>) returns (r: Result<ByteRange>)
    requires t.roots == NodesAt(log, Roots(t.length)) && t.length <= |log|
    ensures i >= t.length ==> r == Err(BadArgument)
    ensures ExactNodes(log, t.view) && r.Ok? ==> r.value == ByteRange(ByteStart(log, i), |log[i]|)
    ensures r.Ok? <==> i < t.length && Leaf(i) in t.view && PathKnown(t, i)
    ensures Trusted(log, t) && Leaf(i) in t.view ==> r.Ok?
  {
    if Trusted(log, t) && Leaf(i) in t.view {
      KnownPath(log, t, Leaf(i));
    }
    if 2 * i >= 2 * t.length {
      return Err(BadArgument);
    }
    var node := RequiredNode(t.view, Leaf(i));
    if node.Err? {
      return Err(node.error);
    }
    var offset := ByteOffset(t, Leaf(i), log);
    if offset.Err? {
      return Err(offset.error);
    }
    return Ok(ByteRange(offset.value, node.value.length));
  }

  // ---------------------------------------------------------------- ranges tile the log

  /** Ranges do not overlap. */
  lemma {:induction false} RangesDisjoint(log: seq<Block>, i: nat, j: nat)
    requires i < j
    ensures ByteStart(log, i) + |BlockAt(log, i)| <= ByteStart(log, j)
    decreases j
  {
    if i + 1 < j {
      RangesDisjoint(log, i, j - 1);
    }
  }

  lemma {:induction false} StartsIncrease(log: seq<Block>, i: nat, j: nat)
    requires i <= j
    ensures ByteStart(log, i) <= ByteStart(log, j)
    decreases j
  {
    if i < j {
      StartsIncrease(log, i, j - 1);
    }
  }

  /** Every byte below the byte length lies in the range of some block. */
  lemma {:induction false} RangesCover(log: seq<Block>, n: nat, x: nat) returns (i: nat)
    requires x < ByteStart(log, n)
    ensures i < n && ByteStart(log, i) <= x < ByteStart(log, i) + |BlockAt(log, i)|
  {
    if x >= ByteStart(log, n - 1) {
      i := n - 1;
    } else {
      i := RangesCover(log, n - 1, x);
    }
  }

  lemma {:induction false} PrefixStarts(log: seq<Block>, more: seq<Block>, i: nat)
    requires i <= |log|
    ensures ByteStart(log + more, i) == ByteStart(log, i)
  {
    if i > 0 {
      PrefixStarts(log, more, i - 1);
    }
  }

  // ---------------------------------------------------------------- seek

  /** The seek ends at a node that ends at the byte, or in the block that holds it. */
  ghost predicate Lands(log: seq<Block>, p: Pos, bytes: nat) {
    ByteStart(log, Hi(p)) == bytes || (p.depth == 0 && ByteStart(log, Lo(p)) < bytes < ByteStart(log, Hi(p)))
  }

  /** The byte lies inside `p`, below an unknown left child. */
  ghost predicate Unresolved(log: seq<Block>, view: View, p: Pos, bytes: nat) {
    p.depth > 0 && LeftChild(p) !in view && ByteStart(log, Lo(p)) < bytes < ByteStart(log, Hi(p))
  }

  /** Descend towards the byte, counted from the start of `root`; an unknown left child ends it at its parent. */
  method SeekTrustedTree(view: View, root: Pos, bytes0: nat, ghost log: seq<Block>, ghost n: nat) returns (p: Pos)
    requires ExactNodes(log, view) && Hi(root) <= n && bytes0 < BytesAt(log, root)
    ensures bytes0 == 0 ==> p == root
    ensures Lo(root) <= Lo(p) && Hi(p) <= Hi(root)
    ensures var at := ByteStart(log, Lo(root)) + bytes0;
            0 < bytes0 ==> Lands(log, p, at) || Unresolved(log, view, p, at)
  {
    if bytes0 == 0 {
      return root;
    }
    var it, bytes := root, bytes0;
    SubtreeBytes(log, root);
    while it.depth > 0
      invariant 0 < bytes < BytesAt(log, it) && Lo(root) <= Lo(it) && Hi(it) <= Hi(root)
      invariant ByteStart(log, Lo(it)) + bytes == ByteStart(log, Lo(root)) + bytes0
      decreases it.depth
    {
      ChildSpans(it);
      SubtreeBytes(log, LeftChild(it));
      var left := LeftChild(it);
      if left !in view {
        SubtreeBytes(log, it);
        return it;
      }
      if view[left].length == bytes {
        return left;
      }
      if view[left].length > bytes {
        it := left;
      } else {
        bytes := bytes - view[left].length;
        it := RightChild(it);
      }
    }
    SubtreeBytes(log, it);
    return it;
  }

  /** The seek comes to the root `k`, which is not known. */
  predicate RootMissed(view: View, log: seq<Block>, b: nat, bytes: nat, k: nat) {
    k < |Roots(b)| && (k == 0 || ByteStart(log, Boundary(b, k)) < bytes) && Roots(b)[k] !in view
  }

  /** The first `k` roots are known. */
  predicate RootsKnown(view: View, b: nat, k: nat) {
    k <= |Roots(b)| && forall j :: 0 <= j < k ==> Roots(b)[j] in view
  }

  lemma {:induction false} OneMoreKnown(view: View, b: nat, k: nat)
    requires k < |Roots(b)| && RootsKnown(view, b, k) && Roots(b)[k] in view
    ensures RootsKnown(view, b, k + 1)
  {
  }

  ghost predicate SomeRootMissed(view: View, log: seq<Block>, b: nat, bytes: nat) {
    exists k :: 0 <= k && RootMissed(view, log, b, bytes, k)
  }

  /**
   Whether `r` is the seek's result over the tree of the first `b` blocks: it fails exactly for an unknown root before
   the byte, and else finds the byte, the subtree where the way to it is unknown, or the head for bytes past the end.
   */
  ghost predicate Sought(view: View, log: seq<Block>, b: nat, bytes: nat, r: Result<Option<Pos>>) {
    && (r.Err? <==> SomeRootMissed(view, log, b, bytes))
    && (r == Ok(None) ==> b == 0 || bytes > ByteStart(log, b))
    && (r.Ok? && r.value.Some? ==> FoundIn(view, log, b, bytes, r.value.value))
  }

  ghost predicate FoundIn(view: View, log: seq<Block>, b: nat, bytes: nat, p: Pos) {
    && Hi(p) <= b && bytes <= ByteStart(log, b)
    && (0 < bytes ==> Lands(log, p, bytes) || Unresolved(log, view, p, bytes))
  }

  /** `seek_from_head` in a tree with exact nodes. */
  method SeekFromHead(view: View, b: nat, bytes0: nat, ghost log: seq<Block>,
                      ghost n: nat) returns (r: Result<Option<Pos>>)
    requires ExactNodes(log, view) && b <= n
    ensures Sought(view, log, b, bytes0, r)
  {
    var roots, bytes := Roots(b), bytes0;
    RootsStart(b);
    for k := 0 to |roots|
      invariant bytes + ByteStart(log, Boundary(b, k)) == bytes0
      invariant k > 0 ==> bytes > 0
      invariant RootsKnown(view, b, k)
    {
      var root := roots[k];
      RootLength(log, b, k);
      var node := RequiredNode(view, root);
      if node.Err? {
        MissedHere(view, log, b, bytes0, k);
        return Err(node.error);
      }
      OneMoreKnown(view, b, k);
      if bytes == node.value.length {
        SoughtAtRoot(view, log, b, k, bytes0);
        return Ok(Some(root));
      }
      if bytes > node.value.length {
        bytes := bytes - node.value.length;
        continue;
      }
      var p := SeekInRoot(view, b, k, bytes, bytes0, log, n);
      return Ok(Some(p));
    }
    PastTheEnd(view, log, b, bytes0);
    return Ok(None);
  }

  /** The rest of the seek, inside a root. */
  method SeekInRoot(view: View, b: nat, k: nat, bytes: nat, ghost bytes0: nat, ghost log: seq<Block>,
                    ghost n: nat) returns (p: Pos)
    requires ExactNodes(log, view) && b <= n && k < |Roots(b)| && RootsKnown(view, b, k + 1)
    requires bytes + ByteStart(log, Boundary(b, k)) == bytes0 && bytes < BytesAt(log, Roots(b)[k])
    requires k > 0 ==> bytes > 0
    ensures Sought(view, log, b, bytes0, Ok(Some(p)))
  {
    var root := Roots(b)[k];
    ByteInRoot(log, b, k, bytes);
    p := SeekTrustedTree(view, root, bytes, log, n);
    SoughtInRoot(view, log, b, k, bytes0, p);
  }

  lemma {:induction false} SoughtInRoot(view: View, log: seq<Block>, b: nat, k: nat, bytes: nat, p: Pos)
    requires k < |Roots(b)| && RootsKnown(view, b, k + 1)
    requires bytes <= ByteStart(log, Boundary(b, k + 1)) && Hi(p) <= Hi(Roots(b)[k])
    requires 0 < bytes ==> Lands(log, p, bytes) || Unresolved(log, view, p, bytes)
    ensures Sought(view, log, b, bytes, Ok(Some(p)))
  {
    RootBytes(log, b, k);
    NoneMissed(view, log, b, bytes, k);
  }

  lemma {:induction false} SoughtAtRoot(view: View, log: seq<Block>, b: nat, k: nat, bytes: nat)
    requires k < |Roots(b)| && RootsKnown(view, b, k + 1) && bytes == ByteStart(log, Boundary(b, k + 1))
    ensures Sought(view, log, b, bytes, Ok(Some(Roots(b)[k])))
  {
    RootBytes(log, b, k);
    SoughtInRoot(view, log, b, k, bytes, Roots(b)[k]);
  }

  lemma {:induction false} PastTheEnd(view: View, log: seq<Block>, b: nat, bytes: nat)
    requires RootsKnown(view, b, |Roots(b)|)
    ensures !SomeRootMissed(view, log, b, bytes)
  {
  }

  /** The bytes of a root, between those before it and the end. */
  lemma {:induction false} RootBytes(log: seq<Block>, b: nat, k: nat)
    requires k < |Roots(b)|
    ensures Lo(Roots(b)[k]) == Boundary(b, k) && Hi(Roots(b)[k]) == Boundary(b, k + 1) <= b
    ensures ByteStart(log, Boundary(b, k)) + BytesAt(log, Roots(b)[k]) == ByteStart(log, Boundary(b, k + 1))
            <= ByteStart(log, b)
  {
    RootsAdjacent(b, k);
    RootsSpan(b, k);
    SubtreeBytes(log, Roots(b)[k]);
    StartsIncrease(log, Hi(Roots(b)[k]), b);
  }

  /** A byte inside a root, counted from the start of the log. */
  lemma {:induction false} ByteInRoot(log: seq<Block>, b: nat, k: nat, bytes: nat)
    requires k < |Roots(b)| && bytes < BytesAt(log, Roots(b)[k])
    ensures ByteStart(log, Lo(Roots(b)[k])) == ByteStart(log, Boundary(b, k)) && Hi(Roots(b)[k]) <= b
    ensures ByteStart(log, Boundary(b, k)) + bytes <= ByteStart(log, Boundary(b, k + 1))
    ensures k == 0 ==> ByteStart(log, Boundary(b, k)) == 0
  {
    RootBytes(log, b, k);
    RootsStart(b);
  }

  lemma {:induction false} RootLength(log: seq<Block>, b: nat, k: nat)
    requires k < |Roots(b)|
    ensures ByteStart(log, Boundary(b, k)) + NodeAt(log, Roots(b)[k]).length == ByteStart(log, Boundary(b, k + 1))
  {
    RootBytes(log, b, k);
  }

  lemma {:induction false} NoneMissed(view: View, log: seq<Block>, b: nat, bytes: nat, k: nat)
    requires k < |Roots(b)| && RootsKnown(view, b, k + 1)
    ensures bytes <= ByteStart(log, Boundary(b, k + 1)) ==> !SomeRootMissed(view, log, b, bytes)
  {
    if SomeRootMissed(view, log, b, bytes) {
      var j :| 0 <= j && RootMissed(view, log, b, bytes, j);
      BoundariesGrow(b, k + 1, j);
      StartsIncrease(log, Boundary(b, k + 1), Boundary(b, j));
    }
  }

  lemma {:induction false} MissedHere(view: View, log: seq<Block>, b: nat, bytes: nat, k: nat)
    requires RootMissed(view, log, b, bytes, k)
    ensures SomeRootMissed(view, log, b, bytes)
  {
  }

  lemma {:induction false} BoundariesGrow(b: nat, i: nat, j: nat)
    requires i <= j <= |Roots(b)|
    ensures Boundary(b, i) <= Boundary(b, j)
  {
    if i < j {
      BoundariesGrow(b, i, j - 1);
      RootsAdjacent(b, j - 1);
      ParentSpan(Roots(b)[j - 1]);
    }
  }

  // ---------------------------------------------------------------- offsets before the commit

  /** The first `k` roots of the changeset are the tree's own. */
  predicate SharedLeft(oldRoots: seq<Node>, roots: seq<Node>, k: nat) {
    k <= |oldRoots| && k <= |roots| && oldRoots[..k] == roots[..k]
  }

  /** The roots left of every new root over block `i` are shared with the tree. */
  predicate SharedLeftOf(t: Tree, roots: seq<Node>, i: nat) {
    forall k :: 0 <= k < |roots| && HasLeaf(roots[k].pos, i) ==> SharedLeft(t.roots, roots, k)
  }

  /** The nodes start with the block's leaf and lead up to a new root or a known node. */
  ghost predicate LeadsUp(t: Tree, nodes: seq<Node>, roots: seq<Node>, i: nat) {
    Leaf(i) in Positions(nodes) && Topped(nodes, Positions(roots) + t.view.Keys)
  }

  /** `offset` is where block `i` starts inside the blocks under `x`, the writer's node. */
  ghost predicate StartsInside(log: seq<Block>, i: nat, x: Node, offset: nat) {
    x == NodeAt(log, x.pos) && HasLeaf(x.pos, i) && ByteStart(log, Lo(x.pos)) + offset == ByteStart(log, i)
  }

  lemma {:induction false} OneRootOver(n: nat, k: nat, i: nat)
    requires k < |Roots(n)| && HasLeaf(Roots(n)[k], i)
    ensures forall j :: 0 <= j < |Roots(n)| && HasLeaf(Roots(n)[j], i) ==> j == k
  {
    forall j | 0 <= j < |Roots(n)| && HasLeaf(Roots(n)[j], i)
      ensures j == k
    {
      RootsAdjacent(n, j);
      RootsAdjacent(n, k);
      if j < k {
        BoundaryUpTo(n, j + 1, k);
      } else if k < j {
        BoundaryUpTo(n, k + 1, j);
      }
    }
  }

  /** How far a climb from a block has come: the block's offset inside the last node found. */
  datatype Inside = Inside(offset: nat, parent: Option<Node>)

  /** One node up; a length that would go below zero is an arithmetic panic. */
  function StepUp(node: Node, isRight: bool, at: Inside): Result<Inside> {
    if !isRight || at.parent.None? then Ok(Inside(at.offset, Some(node)))
    else if node.length < at.parent.value.length then Err(Panic)
    else Ok(Inside(at.offset + (node.length - at.parent.value.length), Some(node)))
  }

  /** Byte offset of a block inside the highest of its ancestors that a climb through `nodes` finds. */
  function InsideFrom(nodes: seq<Node>, it: Pos, isRight: bool, at: Inside): Result<Inside> {
    if nodes == [] then Ok(at)
    else if nodes[0].pos != it then InsideFrom(nodes[1..], it, isRight, at)
    else
      var next := StepUp(nodes[0], isRight, at);
      if next.Err? then next else InsideFrom(nodes[1..], Parent(it), it.offset % 2 == 1, next.value)
  }

  function InsideOf(nodes: seq<Node>, i: nat): Result<Inside> {
    InsideFrom(nodes, Leaf(i), false, Inside(0, None))
  }

  /** The climb after the first `j` nodes; the last one found is the one at `last`. */
  ghost predicate Climbing(log: seq<Block>, nodes: seq<Node>, i: nat, j: nat, it: Pos, isRight: bool, at: Inside,
                           last: nat)
    requires j <= |nodes|
  {
    && (at.parent.None? ==> at.offset == 0 && it == Leaf(i) && !isRight && forall k :: 0 <= k < j ==> nodes[k].pos != it)
    && (at.parent.Some? ==>
          && it == Parent(at.parent.value.pos) && isRight == (at.parent.value.pos.offset % 2 == 1)
          && last < j && nodes[last] == at.parent.value && forall k :: last < k < j ==> nodes[k].pos != it)
    && (at.parent.Some? && AllExact(log, nodes) ==> StartsInside(log, i, at.parent.value, at.offset))
  }

  /** What a climb gives: the start inside a node at the top of the list. */
  ghost predicate Climbed(log: seq<Block>, nodes: seq<Node>, i: nat, r: Result<Inside>) {
    && (r.Ok? && r.value.parent.None? ==> r.value.offset == 0 && Leaf(i) !in Positions(nodes))
    && (r.Ok? && r.value.parent.Some? ==> forall tops :: Topped(nodes, tops) ==> r.value.parent.value.pos in tops)
    && (AllExact(log, nodes) ==> r.Ok? && (r.value.parent.Some? ==> StartsInside(log, i, r.value.parent.value, r.value.offset)))
  }

  lemma {:induction false} InsideClimbs(log: seq<Block>, nodes: seq<Node>, i: nat, j: nat, it: Pos, isRight: bool,
                                        at: Inside, last: nat)
    requires j <= |nodes| && Climbing(log, nodes, i, j, it, isRight, at, last)
    ensures Climbed(log, nodes, i, InsideFrom(nodes[j..], it, isRight, at))
    decreases |nodes| - j
  {
    if j == |nodes| {
      ClimbEnded(log, nodes, i, it, isRight, at, last);
      return;
    }
    assert nodes[j..][0] == nodes[j] && nodes[j..][1..] == nodes[j + 1..];
    if nodes[j].pos != it {
      InsideClimbs(log, nodes, i, j + 1, it, isRight, at, last);
    } else {
      ClimbStep(log, nodes, i, j, it, isRight, at, last);
      var next := StepUp(nodes[j], isRight, at);
      if next.Ok? {
        InsideClimbs(log, nodes, i, j + 1, Parent(it), it.offset % 2 == 1, next.value, j);
      }
    }
  }

  lemma {:induction false} ClimbEnded(log: seq<Block>, nodes: seq<Node>, i: nat, it: Pos, isRight: bool, at: Inside,
                                      last: nat)
    requires Climbing(log, nodes, i, |nodes|, it, isRight, at, last)
    ensures Climbed(log, nodes, i, Ok(at))
  {
    if at.parent.Some? {
      forall tops | Topped(nodes, tops)
        ensures at.parent.value.pos in tops
      {
        TopOfClimb(nodes, last, tops);
      }
    }
  }

  lemma {:induction false} ClimbStep(log: seq<Block>, nodes: seq<Node>, i: nat, j: nat, it: Pos, isRight: bool,
                                     at: Inside, last: nat)
    requires j < |nodes| && nodes[j].pos == it && Climbing(log, nodes, i, j, it, isRight, at, last)
    ensures var next := StepUp(nodes[j], isRight, at);
            if next.Ok? then Climbing(log, nodes, i, j + 1, Parent(it), it.offset % 2 == 1, next.value, j)
            else !AllExact(log, nodes)
  {
    if AllExact(log, nodes) {
      assert nodes[j] in nodes;
      if at.parent.Some? {
        ClimbInside(log, i, at.parent.value, nodes[j], at.offset);
      }
    }
  }

  /** The climbing loop. */
  method ClimbOffset(nodes: seq<Node>, i: nat) returns (r: Result<Inside>)
    ensures r == InsideOf(nodes, i)
  {
    var it, isRight, offset: nat := Leaf(i), false, 0;
    var parent: Option<Node> := None;
    assert nodes[0..] == nodes;
    for j := 0 to |nodes|
      invariant InsideFrom(nodes[j..], it, isRight, Inside(offset, parent)) == InsideOf(nodes, i)
    {
      var node := nodes[j];
      assert nodes[j..][0] == node && nodes[j..][1..] == nodes[j + 1..];
      if node.pos == it {
        if isRight && parent.Some? {
          if node.length < parent.value.length {
            return Err(Panic);
          }
          offset := offset + (node.length - parent.value.length);
        }
        parent := Some(node);
        isRight := it.offset % 2 == 1;
        it := Parent(it);
      }
    }
    r := Ok(Inside(offset, parent));
  }

  lemma {:induction false} TopOfClimb(nodes: seq<Node>, last: nat, tops: set<Pos>)
    requires Topped(nodes, tops) && last < |nodes|
             && forall k :: last < k < |nodes| ==> nodes[k].pos != Parent(nodes[last].pos)
    ensures nodes[last].pos in tops
  {
    assert Capped(nodes, tops, last);
  }

  lemma {:induction false} ClimbInside(log: seq<Block>, i: nat, x: Node, y: Node, offset: nat)
    requires StartsInside(log, i, x, offset) && y == NodeAt(log, Parent(x.pos))
    ensures x.pos.offset % 2 == 0 ==> StartsInside(log, i, y, offset)
    ensures x.pos.offset % 2 == 1 ==> x.length <= y.length && StartsInside(log, i, y, offset + (y.length - x.length))
  {
    ClimbOne(log, x.pos);
    SubtreeBytes(log, x.pos);
    SubtreeBytes(log, y.pos);
    StartsIncrease(log, Lo(y.pos), Lo(x.pos));
  }

  /** The first root at a position, from `k` on. */
  function RootIndex(roots: seq<Node>, p: Pos, k: nat): (r: Option<nat>)
    requires k <= |roots|
    ensures r.Some? ==> k <= r.value < |roots| && roots[r.value].pos == p
    ensures r.None? ==> forall j :: k <= j < |roots| ==> roots[j].pos != p
    decreases |roots| - k
  {
    if k == |roots| then None else if roots[k].pos == p then Some(k) else RootIndex(roots, p, k + 1)
  }

  method RootAt(roots: seq<Node>, p: Pos) returns (k: Option<nat>)
    ensures k == RootIndex(roots, p, 0)
  {
    for j := 0 to |roots|
      invariant RootIndex(roots, p, j) == RootIndex(roots, p, 0)
    {
      if roots[j].pos == p {
        return Some(j);
      }
    }
    return None;
  }

  lemma {:induction false} ClimbOne(log: seq<Block>, p: Pos)
    ensures Lo(Parent(p)) <= Lo(p) && Hi(p) <= Hi(Parent(p))
    ensures p.offset % 2 == 0 ==> Lo(Parent(p)) == Lo(p)
    ensures p.offset % 2 == 1 ==>
              ByteStart(log, Lo(Parent(p))) + (BytesAt(log, Parent(p)) - BytesAt(log, p)) == ByteStart(log, Lo(p))
  {
    ParentSpan(p);
    SubtreeBytes(log, p);
    SubtreeBytes(log, Parent(p));
  }

  /** The byte lengths of the first `k` roots, added to `start`; there may be fewer. */
  function LeftOf(roots: seq<Node>, k: nat, start: nat): Result<nat> {
    if k <= |roots| then Ok(start + TotalLength(roots[..k])) else Err(Panic)
  }

  method SumLeft(roots: seq<Node>, k: nat, start: nat) returns (r: Result<nat>)
    ensures r == LeftOf(roots, k, start)
  {
    var sum := start;
    for j := 0 to k
      invariant j <= |roots| && sum == start + TotalLength(roots[..j])
    {
      if j >= |roots| {
        return Err(Panic);
      }
      TotalLengthStep(roots, j);
      sum := sum + roots[j].length;
    }
    return Ok(sum);
  }

  function Plus(r: Result<nat>, offset: nat): Result<nat> {
    if r.Err? then r else Ok(r.value + offset)
  }

  /** From the top of the climb: the tree's roots left of a new root, or the tree's own offset of a known node. */
  function PlaceUnder(t: Tree, i: nat, roots: seq<Node>, at: Inside): Result<nat> {
    if at.parent.None? then Plus(OffsetIn(t, i), at.offset)
    else
      var k := RootIndex(roots, at.parent.value.pos, 0);
      if k.Some? then LeftOf(t.roots, k.value, at.offset) else Plus(OffsetIn(t, Lo(at.parent.value.pos)), at.offset)
  }

  /** Where a changeset's nodes and roots put block `i`. */
  function PlaceIn(t: Tree, i: nat, nodes: seq<Node>, roots: seq<Node>): Result<nat> {
    if t.length == i then Ok(t.byteLength)
    else
      var inside := InsideOf(nodes, i);
      if inside.Err? then Err(inside.error) else PlaceUnder(t, i, roots, inside.value)
  }

  /** What is known of the changeset of an accepted proof with block `i`, once its lengths are exact. */
  ghost predicate ExactChangeset(log: seq<Block>, t: Tree, nodes: seq<Node>, roots: seq<Node>, i: nat, n: nat) {
    && Trusted(log, t) && ExactNodes(log, t.view) && t.length <= n <= |log| && roots == NodesAt(log, Roots(n))
    && AllExact(log, nodes) && LeadsUp(t, nodes, roots, i)
  }

  /** The tree's first `k` roots, which the lookup adds up, have the bytes of the changeset's first `k` roots. */
  predicate SameBytes(oldRoots: seq<Node>, roots: seq<Node>, k: nat) {
    k <= |oldRoots| && k <= |roots| && TotalLength(oldRoots[..k]) == TotalLength(roots[..k])
  }

  /** ... for every new root over block `i`. A caller can tell this from the two root lists alone. */
  predicate SameBytesLeft(t: Tree, roots: seq<Node>, i: nat) {
    forall k :: 0 <= k < |roots| && HasLeaf(roots[k].pos, i) ==> SameBytes(t.roots, roots, k)
  }

  /** What the lookup gives for a block under new root `k`: off by the difference of the two sums, or out of range. */
  ghost predicate FoundUnder(log: seq<Block>, t: Tree, roots: seq<Node>, i: nat, k: nat, r: Result<nat>)
    requires k <= |roots|
  {
    if k <= |t.roots| then r.Ok? && r.value + TotalLength(roots[..k]) == ByteStart(log, i) + TotalLength(t.roots[..k])
    else r == Err(Panic)
  }

  /** ... whichever new root that is. */
  ghost predicate Found(log: seq<Block>, t: Tree, roots: seq<Node>, i: nat, r: Result<nat>) {
    forall k :: 0 <= k < |roots| && HasLeaf(roots[k].pos, i) ==> FoundUnder(log, t, roots, i, k, r)
  }

  /** The found offset is right exactly when the sums agree. */
  lemma {:induction false} FoundIsRight(log: seq<Block>, t: Tree, n: nat, i: nat, r: Result<nat>)
    requires Found(log, t, NodesAt(log, Roots(n)), i, r) && i < n
    ensures r == Ok(ByteStart(log, i)) <==> SameBytesLeft(t, NodesAt(log, Roots(n)), i)
  {
    var roots := NodesAt(log, Roots(n));
    var k := RootOver(n, i);
    assert HasLeaf(roots[k].pos, i) && FoundUnder(log, t, roots, i, k, r);
    OneRootOver(n, k, i);
  }

  /** The climb ended at a new root. */
  lemma {:induction false} FoundAtRoot(log: seq<Block>, t: Tree, roots: seq<Node>, n: nat, i: nat, k: nat, offset: nat,
                                       r: Result<nat>)
    requires roots == NodesAt(log, Roots(n)) && k < |roots| && StartsInside(log, i, roots[k], offset)
    requires r == if k <= |t.roots| then Ok(offset + TotalLength(t.roots[..k])) else Err(Panic)
    ensures i < n && Found(log, t, roots, i, r)
  {
    RootsBytes(log, n, k);
    RootsSpan(n, k);
    OneRootOver(n, k, i);
  }

  /** The climb ended at a node that was known: the block lies left of the old end, where the roots are shared. */
  lemma {:induction false} FoundBelow(log: seq<Block>, t: Tree, roots: seq<Node>, n: nat, i: nat, p: Pos,
                                      r: Result<nat>)
    requires roots == NodesAt(log, Roots(n)) && Trusted(log, t) && t.length <= n
    requires p in t.view && HasLeaf(p, i) && r == Ok(ByteStart(log, i))
    ensures i < n && Found(log, t, roots, i, r)
  {
    var root := KnownUnderRoot(log, t, p);
    SharedWhenReached(log, t, n, i);
  }

  /** Where a climb from block `i` may end: at an exact node that is a new root or was known. */
  ghost predicate Ended(log: seq<Block>, t: Tree, roots: seq<Node>, i: nat, n: nat, top: Node, offset: nat) {
    && Trusted(log, t) && ExactNodes(log, t.view) && t.length <= n && roots == NodesAt(log, Roots(n))
    && StartsInside(log, i, top, offset) && (top.pos in Positions(roots) || top.pos in t.view)
  }

  lemma {:induction false} ClimbEnds(t: Tree, nodes: seq<Node>, roots: seq<Node>, i: nat, parent: Option<Node>)
    requires LeadsUp(t, nodes, roots, i) && (parent.None? ==> Leaf(i) !in Positions(nodes))
    requires parent.Some? ==> forall tops :: Topped(nodes, tops) ==> parent.value.pos in tops
    ensures parent.Some? && (parent.value.pos in Positions(roots) || parent.value.pos in t.view)
  {
  }

  lemma {:induction false} NotAmongRoots(roots: seq<Node>, p: Pos)
    requires RootIndex(roots, p, 0).None?
    ensures p !in Positions(roots)
  {
    assert forall x :: x in roots ==> x.pos != p;
  }

  lemma {:induction false} KnownStart(log: seq<Block>, t: Tree, p: Pos)
    requires Trusted(log, t) && ExactNodes(log, t.view) && p in t.view
    ensures OffsetIn(t, Lo(p)) == Ok(ByteStart(log, Lo(p)))
  {
    OffsetIsStart(log, t, p);
  }

  lemma {:induction false} FoundFromRoot(log: seq<Block>, t: Tree, roots: seq<Node>, i: nat, n: nat, top: Node,
                                         offset: nat)
    requires roots == NodesAt(log, Roots(n)) && StartsInside(log, i, top, offset) && RootIndex(roots, top.pos, 0).Some?
    ensures i < n && Found(log, t, roots, i, PlaceUnder(t, i, roots, Inside(offset, Some(top))))
  {
    var k := RootIndex(roots, top.pos, 0).value;
    assert roots[k] == NodeAt(log, top.pos);
    FoundAtRoot(log, t, roots, n, i, k, offset, LeftOf(t.roots, k, offset));
  }

  lemma {:induction false} FoundFromKnown(log: seq<Block>, t: Tree, roots: seq<Node>, i: nat, n: nat, top: Node,
                                          offset: nat)
    requires Trusted(log, t) && ExactNodes(log, t.view) && t.length <= n && roots == NodesAt(log, Roots(n))
    requires StartsInside(log, i, top, offset) && RootIndex(roots, top.pos, 0).None? && top.pos in t.view
    ensures i < n && Found(log, t, roots, i, PlaceUnder(t, i, roots, Inside(offset, Some(top))))
  {
    KnownStart(log, t, top.pos);
    PlaceOfKnown(t, i, roots, top, offset, ByteStart(log, Lo(top.pos)));
    FoundBelow(log, t, roots, n, i, top.pos, Ok(ByteStart(log, i)));
  }

  lemma {:induction false} PlaceOfKnown(t: Tree, i: nat, roots: seq<Node>, top: Node, offset: nat, start: nat)
    requires RootIndex(roots, top.pos, 0).None? && OffsetIn(t, Lo(top.pos)) == Ok(start)
    ensures PlaceUnder(t, i, roots, Inside(offset, Some(top))) == Ok(start + offset)
  {
  }

  lemma {:induction false} FoundFromTop(log: seq<Block>, t: Tree, roots: seq<Node>, i: nat, n: nat, top: Node,
                                        offset: nat)
    requires Ended(log, t, roots, i, n, top, offset)
    ensures i < n && Found(log, t, roots, i, PlaceUnder(t, i, roots, Inside(offset, Some(top))))
  {
    if RootIndex(roots, top.pos, 0).Some? {
      FoundFromRoot(log, t, roots, i, n, top, offset);
    } else {
      NotAmongRoots(roots, top.pos);
      FoundFromKnown(log, t, roots, i, n, top, offset);
    }
  }

  /** With exact lengths the place found is right if and only if the two sums agree. */
  lemma {:induction false} PlaceIsFound(log: seq<Block>, t: Tree, nodes: seq<Node>, roots: seq<Node>, i: nat, n: nat)
    requires ExactChangeset(log, t, nodes, roots, i, n) && t.length != i
    ensures i < n && Found(log, t, roots, i, PlaceIn(t, i, nodes, roots))
    ensures PlaceIn(t, i, nodes, roots) == Ok(ByteStart(log, i)) <==> SameBytesLeft(t, roots, i)
  {
    assert nodes[0..] == nodes;
    InsideClimbs(log, nodes, i, 0, Leaf(i), false, Inside(0, None), 0);
    var inside := InsideOf(nodes, i).value;
    ClimbEnds(t, nodes, roots, i, inside.parent);
    FoundFromTop(log, t, roots, i, n, inside.parent.value, inside.offset);
    FoundIsRight(log, t, n, i, PlaceIn(t, i, nodes, roots));
  }

  /** `byte_offset_in_changeset`; the lengths to the left are taken from the tree's roots, not the changeset's. */
  method ByteOffsetInChangeset(t: Tree, i: nat, nodes: seq<Node>, roots: seq<Node>, ghost log: seq<Block>, ghost n: nat)
    returns (r: Result<nat>)
    requires t.roots == NodesAt(log, Roots(t.length))
    ensures r == PlaceIn(t, i, nodes, roots)
    ensures ExactChangeset(log, t, nodes, roots, i, n) && t.length != i ==>
              i < n && Found(log, t, roots, i, r) && (r == Ok(ByteStart(log, i)) <==> SameBytesLeft(t, roots, i))
  {
    if t.length == i {
      return Ok(t.byteLength);
    }
    r := LookUpInChangeset(t, i, nodes, roots, log);
    if ExactChangeset(log, t, nodes, roots, i, n) {
      PlaceIsFound(log, t, nodes, roots, i, n);
    }
  }

  method LookUpInChangeset(t: Tree, i: nat, nodes: seq<Node>, roots: seq<Node>,
                           ghost log: seq<Block>) returns (r: Result<nat>)
    requires t.roots == NodesAt(log, Roots(t.length)) && t.length != i
    ensures r == PlaceIn(t, i, nodes, roots)
  {
    var inside := ClimbOffset(nodes, i);
    if inside.Err? {
      return Err(inside.error);
    }
    var p, offset := Leaf(i), inside.value.offset;
    if inside.value.parent.Some? {
      p := inside.value.parent.value.pos;
      var k := RootAt(roots, p);
      if k.Some? {
        r := SumLeft(t.roots, k.value, offset);
        return;
      }
    }
    var below := OffsetOfBlock(t, Lo(p), log);
    r := if below.Err? then below else Ok(below.value + offset);
  }

  /** Up to a root of the longer tree that starts inside the shorter one, both trees have the same roots. */
  lemma {:induction false} RootsShared(m: nat, n: nat, k: nat, j: nat)
    requires m <= n && j <= k < |Roots(n)| && Lo(Roots(n)[k]) <= m
    ensures j <= |Roots(m)| && Boundary(m, j) == Boundary(n, j) && Roots(m)[..j] == Roots(n)[..j]
  {
    if j == 0 {
      RootsStart(m);
      RootsStart(n);
    } else {
      RootsShared(m, n, k, j - 1);
      BoundaryUpTo(n, j, k);
      NextShared(m, n, j - 1);
    }
  }

  /** One more root is shared if it lies inside the shorter tree. */
  lemma {:induction false} NextShared(m: nat, n: nat, j: nat)
    requires m <= n && j < |Roots(n)| && j <= |Roots(m)| && Boundary(m, j) == Boundary(n, j)
             && Roots(m)[..j] == Roots(n)[..j]
    requires Boundary(n, j + 1) <= m
    ensures j + 1 <= |Roots(m)| && Boundary(m, j + 1) == Boundary(n, j + 1) && Roots(m)[..j + 1] == Roots(n)[..j + 1]
  {
    RootsAdjacent(n, j);
    ParentSpan(Roots(n)[j]);
    var r := SharedBoundary(m, n, j);
    RootsAdjacent(m, j);
    assert Roots(m)[..j + 1] == Roots(m)[..j] + [r];
    assert Roots(n)[..j + 1] == Roots(n)[..j] + [r];
  }

  lemma {:induction false} BoundaryUpTo(n: nat, j: nat, k: nat)
    requires j <= k < |Roots(n)|
    ensures Boundary(n, j) <= Lo(Roots(n)[k])
    decreases k - j
  {
    if j < k {
      RootsAdjacent(n, j);
      ParentSpan(Roots(n)[j]);
      BoundaryUpTo(n, j + 1, k);
    }
  }

  /** The roots left of a block are shared if it lies below the old end. */
  lemma {:induction false} SharedWhenReached(log: seq<Block>, t: Tree, n: nat, i: nat)
    requires t.roots == NodesAt(log, Roots(t.length)) && t.length <= n && i < t.length
    ensures SharedLeftOf(t, NodesAt(log, Roots(n)), i) && SameBytesLeft(t, NodesAt(log, Roots(n)), i)
  {
    forall k | 0 <= k < |Roots(n)| && HasLeaf(Roots(n)[k], i)
      ensures SharedLeft(t.roots, NodesAt(log, Roots(n)), k)
    {
      SharedExactly(log, t, n, k);
    }
  }

  /** The roots left of a new root are the tree's own exactly if that root starts within the old tree. */
  lemma {:induction false} SharedExactly(log: seq<Block>, t: Tree, n: nat, k: nat)
    requires t.roots == NodesAt(log, Roots(t.length)) && t.length <= n && k < |Roots(n)|
    ensures SharedLeft(t.roots, NodesAt(log, Roots(n)), k) <==> Lo(Roots(n)[k]) <= t.length
  {
    var roots := NodesAt(log, Roots(n));
    if Lo(Roots(n)[k]) <= t.length {
      RootsShared(t.length, n, k, k);
      assert t.roots[..k] == NodesAt(log, Roots(t.length)[..k]);
      assert roots[..k] == NodesAt(log, Roots(n)[..k]);
    } else if SharedLeft(t.roots, roots, k) {
      SharedEnds(log, t, n, k);
    }
  }

  lemma {:induction false} SharedEnds(log: seq<Block>, t: Tree, n: nat, k: nat)
    requires t.roots == NodesAt(log, Roots(t.length)) && k < |Roots(n)|
             && SharedLeft(t.roots, NodesAt(log, Roots(n)), k)
    ensures Lo(Roots(n)[k]) <= t.length
  {
    if k == 0 {
      RootsStart(n);
    } else {
      var roots := NodesAt(log, Roots(n));
      assert t.roots[k - 1] == t.roots[..k][k - 1] == roots[..k][k - 1] == roots[k - 1];
      RootsAdjacent(n, k - 1);
      RootsSpan(t.length, k - 1);
    }
  }
}
