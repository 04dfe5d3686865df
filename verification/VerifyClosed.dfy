/** Accepted proofs leave no known node without its sibling and parent, unless it is a root. */
module VerifyClosed {
  import opened Common
  import opened FlatTree
  import opened Hashes
  import opened Changesets
  import opened Verify

  /** From a closed set of known positions, the nodes added since `d` keep it closed under the new roots. */
  ghost predicate Extends(known: set<Pos>, d: Draft, d': Draft) {
    d.nodes <= d'.nodes && Closed(known + Positions(d'.nodes[|d.nodes|..]), d'.roots)
  }

  ghost predicate Takes(q: Queue, d: Draft, d': Draft, q': Queue) {
    d.nodes <= d'.nodes
    && (q.extra.None? ==> q'.extra.None?)
    && (q.extra.Some? ==> q'.extra == q.extra
                          || (q'.extra.None? && q.extra.value.pos in Positions(d'.nodes[|d.nodes|..])))
  }

  lemma {:induction false} ExtendsTransitive(known: set<Pos>, a: Draft, b: Draft, c: Draft)
    requires a.nodes <= b.nodes
    requires Extends(known + Positions(b.nodes[|a.nodes|..]), b, c)
    ensures Extends(known, a, c)
    ensures Positions(b.nodes[|a.nodes|..]) <= Positions(c.nodes[|a.nodes|..])
    ensures Positions(c.nodes[|b.nodes|..]) <= Positions(c.nodes[|a.nodes|..])
  {
    assert c.nodes[|a.nodes|..] == b.nodes[|a.nodes|..] + c.nodes[|b.nodes|..];
    PositionsConcat(b.nodes[|a.nodes|..], c.nodes[|b.nodes|..]);
    assert known + Positions(b.nodes[|a.nodes|..]) + Positions(c.nodes[|b.nodes|..])
        == known + Positions(c.nodes[|a.nodes|..]);
  }

  lemma {:induction false} AppendRootExtends(known: set<Pos>, d: Draft, node: Node)
    requires Closed(known, d.roots)
    ensures Extends(known, d, AppendRootSpec(d, node).0)
    ensures node.pos in Positions(AppendRootSpec(d, node).0.nodes[|d.nodes|..])
  {
    AppendRootClosed(known, d, node);
    var d' := AppendRootSpec(d, node).0;
    assert d'.nodes[|d.nodes|..][0] == node;
  }

  lemma {:induction false} GrowExtends(known: set<Pos>, d: Draft, q: Queue, it: Pos, target: Pos)
    requires Closed(known, d.roots) && Grow(d, q, it, target).Ok?
    ensures var (d', q') := Grow(d, q, it, target).value;
            Extends(known, d, d') && Takes(q, d, d', q')
    decreases Size(q)
  {
    if it == target {
      assert d.nodes[|d.nodes|..] == [];
      assert known + Positions([]) == known;
    } else {
      var (node, q') := Shift(q, Sibling(it)).value;
      var (d', it') := AppendRootSpec(d, node);
      AppendRootExtends(known, d, node);
      GrowExtends(known + Positions(d'.nodes[|d.nodes|..]), d', q', it', target);
      ExtendsTransitive(known, d, d', Grow(d, q, it, target).value.0);
    }
  }

  lemma {:induction false} UpgradeRootsExtends(
    known: set<Pos>, d: Draft, q: Queue, i: nat, grow: bool, s: nat, b: nat)
    requires Closed(known, d.roots) && UpgradeRoots(d, q, i, grow, s, b).Ok?
    ensures var (d', q') := UpgradeRoots(d, q, i, grow, s, b).value;
            Extends(known, d, d') && Takes(q, d, d', q')
    decreases b - s
  {
    if s >= b {
      assert d.nodes[|d.nodes|..] == [];
      assert known + Positions([]) == known;
    } else {
      var r := FullRoot(s, b);
      if i < |d.roots| && d.roots[i].pos == r {
        UpgradeRootsExtends(known, d, q, i + 1, grow, Hi(r), b);
      } else if grow && i < |d.roots| {
        var it := Last(d.roots).pos;
        var (d', q') := Grow(d, q, it, r).value;
        GrowExtends(known, d, q, it, r);
        UpgradeRootsExtends(known + Positions(d'.nodes[|d.nodes|..]), d', q', i, false, Hi(r), b);
        ExtendsTransitive(known, d, d', UpgradeRoots(d, q, i, grow, s, b).value.0);
      } else {
        var (node, q') := Shift(q, r).value;
        var (d', it') := AppendRootSpec(d, node);
        AppendRootExtends(known, d, node);
        UpgradeRootsExtends(known + Positions(d'.nodes[|d.nodes|..]), d', q', i, false, Hi(it'), b);
        ExtendsTransitive(known, d, d', UpgradeRoots(d, q, i, grow, s, b).value.0);
      }
    }
  }

  lemma {:induction false} ExtraUpExtends(known: set<Pos>, d: Draft, extra: seq<Node>, it: Pos)
    requires Closed(known, d.roots)
    ensures Extends(known, d, ExtraUp(d, extra, it).0)
    decreases |extra|
  {
    if extra != [] && extra[0].pos == Sibling(it) {
      var (d', it') := AppendRootSpec(d, extra[0]);
      AppendRootExtends(known, d, extra[0]);
      ExtraUpExtends(known + Positions(d'.nodes[|d.nodes|..]), d', extra[1..], it');
      ExtendsTransitive(known, d, d', ExtraUp(d, extra, it).0);
    } else {
      assert d.nodes[|d.nodes|..] == [];
      assert known + Positions([]) == known;
    }
  }

  lemma {:induction false} ExtraDownExtends(known: set<Pos>, d: Draft, extra: seq<Node>, it: Pos)
    requires Closed(known, d.roots) && ExtraDown(d, extra, it).Ok?
    ensures Extends(known, d, ExtraDown(d, extra, it).value)
    decreases |extra|
  {
    if extra != [] {
      var (d', it') := AppendRootSpec(d, extra[0]);
      AppendRootExtends(known, d, extra[0]);
      ExtraDownExtends(known + Positions(d'.nodes[|d.nodes|..]), d', extra[1..], Sibling(it'));
      ExtendsTransitive(known, d, d', ExtraDown(d, extra, it).value);
    } else {
      assert d.nodes[|d.nodes|..] == [];
      assert known + Positions([]) == known;
    }
  }

  lemma {:induction false} AdditionalExtends(known: set<Pos>, d: Draft, extra: seq<Node>)
    requires Closed(known, d.roots) && Additional(d, extra).Ok?
    ensures Extends(known, d, Additional(d, extra).value)
  {
    var it := Last(d.roots).pos;
    var (d', rest, it') := ExtraUp(d, extra, it);
    ExtraUpExtends(known, d, extra, it);
    ExtraDownExtends(known + Positions(d'.nodes[|d.nodes|..]), d', rest, it');
    ExtendsTransitive(known, d, d', ExtraDown(d', rest, it').value);
  }

  lemma {:induction false} UpgradeExtends(known: set<Pos>, d: Draft, u: DataUpgrade, blockRoot: Option<Node>)
    requires Closed(known, d.roots) && UpgradeSpec(d, u, blockRoot).Ok?
    ensures var (d', q) := UpgradeSpec(d, u, blockRoot).value;
            Extends(known, d, d') && Takes(Queue(u.nodes, blockRoot), d, d', q)
  {
    var q0 := Queue(u.nodes, blockRoot);
    var b := u.start + u.length;
    var (d1, q) := RootsPhase(d, q0, b).value;
    UpgradeRootsExtends(known, d, q0, 0, d.roots != [], 0, b);
    AdditionalExtends(known + Positions(d1.nodes[|d.nodes|..]), d1, u.additionalNodes);
    ExtendsTransitive(known, d, d1, Additional(d1, u.additionalNodes).value);
  }

  /** The nodes of a climb are linked to each other up to the root it ends in. */
  ghost predicate LinkedTo(s: set<Pos>, root: Pos) {
    root in s && Linked(s, {root})
  }

  lemma {:induction false} ClimbLinked(q: Queue, cur: Node, acc: seq<Node>)
    requires Climb(q, cur, acc).Ok?
    ensures var (root, nodes) := Climb(q, cur, acc).value;
            acc <= nodes
            && var s := Positions(nodes[|acc|..]) + {cur.pos};
            LinkedTo(s, root.pos) && (q.extra.Some? ==> q.extra.value.pos in s)
    decreases Size(q)
  {
    var (root, nodes) := Climb(q, cur, acc).value;
    if Size(q) == 0 {
      assert acc[|acc|..] == [];
    } else {
      var (node, q') := Shift(q, Sibling(cur.pos)).value;
      var parent := ParentNode(Parent(cur.pos), cur, node);
      var acc' := acc + [node, parent];
      ClimbLinked(q', parent, acc');
      var s' := Positions(nodes[|acc'|..]) + {parent.pos};
      LinkStep(s', cur.pos, root.pos);
      PositionsTwoMore(nodes, |acc|);
      assert nodes[|acc|] == acc'[|acc|] && nodes[|acc| + 1] == acc'[|acc| + 1];
      assert Positions(nodes[|acc|..]) + {cur.pos} == s' + {cur.pos, node.pos};
    }
  }

  lemma {:induction false} PositionsTwoMore(nodes: seq<Node>, k: nat)
    requires k + 2 <= |nodes|
    ensures Positions(nodes[k..]) == {nodes[k].pos, nodes[k + 1].pos} + Positions(nodes[k + 2..])
  {
    var two := [nodes[k], nodes[k + 1]];
    assert nodes[k..] == two + nodes[k + 2..];
    PositionsConcat(two, nodes[k + 2..]);
    assert two[0] in two && two[1] in two;
    assert Positions(two) == {nodes[k].pos, nodes[k + 1].pos};
  }

  lemma {:induction false} LinkStep(s: set<Pos>, p: Pos, root: Pos)
    requires LinkedTo(s, root) && Parent(p) in s
    ensures LinkedTo(s + {p, Sibling(p)}, root)
  {
    assert Sibling(Sibling(p)) == p && Parent(Sibling(p)) == Parent(p);
  }

  lemma {:induction false} ClimbFromLinked(q: Queue, p: Pos, value: Option<Block>, acc: seq<Node>)
    requires ClimbFrom(q, p, value, acc).Ok?
    ensures var (root, nodes) := ClimbFrom(q, p, value, acc).value;
            acc <= nodes
            && var s := Positions(nodes[|acc|..]);
            LinkedTo(s, root.pos) && p in s && (q.extra.Some? ==> q.extra.value.pos in s)
  {
    var (root, nodes) := ClimbFrom(q, p, value, acc).value;
    var (node, q') := if value.Some? then (BlockNode(p, value.value), q) else Shift(q, p).value;
    ClimbLinked(q', node, acc + [node]);
    assert nodes[|acc|..] == [node] + nodes[|acc| + 1..];
    PositionsConcat([node], nodes[|acc| + 1..]);
    assert Positions([node]) == {node.pos};
  }

  lemma {:induction false} VerifyTreeLinked(block: Option<DataBlock>, hash: Option<DataHash>, seek: Option<DataSeek>)
    requires VerifyTreeSpec(block, hash, seek).Ok?
    ensures var (root, nodes) := VerifyTreeSpec(block, hash, seek).value;
            && (root.None? ==> nodes == [])
            && (root.Some? ==> LinkedTo(Positions(nodes), root.value.pos))
            && (block.Some? ==> root.Some? && Leaf(block.value.index) in Positions(nodes))
  {
    var (seekRoot, acc) := SeekRoot(seek).value;
    if seekRoot.Some? {
      ClimbFromLinked(Queue(seek.value.nodes, None), seek.value.nodes[0].pos, None, []);
      assert acc[0..] == acc;
    }
    var untrusted := NormalizeData(block, hash);
    if untrusted.Some? {
      var u := untrusted.value;
      ClimbFromLinked(Queue(u.nodes, seekRoot), u.pos, u.value, acc);
      var (root, nodes) := VerifyTreeSpec(block, hash, seek).value;
      assert nodes == acc + nodes[|acc|..];
      PositionsConcat(acc, nodes[|acc|..]);
    }
  }

  /** Adding a linked climb whose root is already known keeps the set closed. */
  lemma {:induction false} ClosedUnion(known: set<Pos>, roots: seq<Node>, s: set<Pos>, root: Pos)
    requires Closed(known, roots) && LinkedTo(s, root) && root in known
    ensures Closed(known + s, roots)
  {
  }
}
