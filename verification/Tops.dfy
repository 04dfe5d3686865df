/**
 The order of an accepted changeset's nodes: every node is followed by its parent, unless it is a
 root of the new tree or was known before. A climb through the nodes in order therefore gets that far.
 */
module Tops {
  import opened Common
  import opened FlatTree
  import opened Hashes
  import opened Changesets
  import opened Verify
  import opened Soundness

  ghost predicate Followed(nodes: seq<Node>, a: nat)
    requires a < |nodes|
  {
    exists b :: a < b < |nodes| && nodes[b].pos == Parent(nodes[a].pos)
  }

  ghost predicate Capped(nodes: seq<Node>, tops: set<Pos>, a: nat) {
    a < |nodes| && (nodes[a].pos in tops || Followed(nodes, a))
  }

  /** Every node is one of `tops` or has its parent later in the sequence. */
  ghost predicate Topped(nodes: seq<Node>, tops: set<Pos>) {
    forall a: nat {:trigger Capped(nodes, tops, a)} :: a < |nodes| ==> Capped(nodes, tops, a)
  }

  /** One more node, which may take over from its children. */
  lemma {:induction false} Push(nodes: seq<Node>, x: Node, tops: set<Pos>, tops': set<Pos>)
    requires Topped(nodes, tops) && x.pos in tops'
    requires forall p :: p in tops ==> p in tops' || Parent(p) == x.pos
    ensures Topped(nodes + [x], tops')
  {
    var now := nodes + [x];
    forall a: nat | a < |now|
      ensures Capped(now, tops', a)
    {
      if a < |nodes| {
        assert Capped(nodes, tops, a);
        if nodes[a].pos !in tops {
          var b :| a < b < |nodes| && nodes[b].pos == Parent(nodes[a].pos);
          assert now[b].pos == Parent(now[a].pos);
        } else if nodes[a].pos !in tops' {
          assert now[|nodes|].pos == Parent(now[a].pos);
        }
      }
    }
  }

  function ExtraPos(q: Queue): set<Pos> {
    if q.extra.Some? then {q.extra.value.pos} else {}
  }

  lemma {:induction false} ShiftedPos(q: Queue, p: Pos)
    requires Shift(q, p).Ok?
    ensures ExtraPos(q) <= ExtraPos(Shift(q, p).value.1) + {p}
  {
  }

  // ---------------------------------------------------------------- verify_tree

  lemma {:induction false} ClimbTopped(q: Queue, cur: Node, acc: seq<Node>)
    requires Climb(q, cur, acc).Ok? && Topped(acc, ExtraPos(q) + {cur.pos})
    ensures Topped(Climb(q, cur, acc).value.1, {Climb(q, cur, acc).value.0.pos})
    decreases Size(q)
  {
    if Size(q) != 0 {
      var s := Shift(q, Sibling(cur.pos)).value;
      var parent := ParentNode(Parent(cur.pos), cur, s.0);
      ShiftedPos(q, Sibling(cur.pos));
      ClimbStepTopped(acc, ExtraPos(q), ExtraPos(s.1), cur, s.0, parent);
      ClimbTopped(s.1, parent, acc + [s.0, parent]);
    } else {
      assert ExtraPos(q) + {cur.pos} == {cur.pos};
    }
  }

  lemma {:induction false} ClimbStepTopped(acc: seq<Node>, was: set<Pos>, now: set<Pos>, cur: Node, node: Node,
                                           parent: Node)
    requires Topped(acc, was + {cur.pos}) && was <= now + {node.pos}
    requires node.pos == Sibling(cur.pos) && parent.pos == Parent(cur.pos)
    ensures Topped(acc + [node, parent], now + {parent.pos})
  {
    Push(acc, node, was + {cur.pos}, now + {cur.pos, node.pos});
    Push(acc + [node], parent, now + {cur.pos, node.pos}, now + {parent.pos});
    assert acc + [node] + [parent] == acc + [node, parent];
  }

  lemma {:induction false} ClimbFromTopped(q: Queue, p: Pos, value: Option<Block>, acc: seq<Node>)
    requires ClimbFrom(q, p, value, acc).Ok? && Topped(acc, ExtraPos(q))
    ensures var r := ClimbFrom(q, p, value, acc).value; Topped(r.1, {r.0.pos})
  {
    if value.Some? {
      var node := BlockNode(p, value.value);
      Push(acc, node, ExtraPos(q), ExtraPos(q) + {p});
      ClimbTopped(q, node, acc + [node]);
    } else {
      var s := Shift(q, p).value;
      ShiftedPos(q, p);
      Push(acc, s.0, ExtraPos(q), ExtraPos(s.1) + {p});
      ClimbTopped(s.1, s.0, acc + [s.0]);
    }
  }

  lemma {:induction false} VerifyTreeTopped(block: Option<DataBlock>, hash: Option<DataHash>, seek: Option<DataSeek>)
    requires VerifyTreeSpec(block, hash, seek).Ok?
    ensures var r := VerifyTreeSpec(block, hash, seek).value; Topped(r.1, ExtraPos(Queue([], r.0)))
  {
    var s := SeekRoot(seek).value;
    if s.0.Some? {
      ClimbFromTopped(Queue(seek.value.nodes, None), seek.value.nodes[0].pos, None, []);
    }
    var u := NormalizeData(block, hash);
    if u.Some? {
      ClimbFromTopped(Queue(u.value.nodes, s.0), u.value.pos, u.value.value, s.1);
    }
  }

  // ---------------------------------------------------------------- verify_upgrade

  lemma {:induction false} AttachTopped(nodes: seq<Node>, roots: seq<Node>, keep: set<Pos>)
    requires roots != [] && Topped(nodes, Positions(roots) + keep)
    ensures Topped(nodes + Attach(roots).added, Positions(Attach(roots).roots) + keep)
    decreases |roots|
  {
    if Mergeable(roots) {
      var parent, next := MergedParent(roots), Attach(MergeOnce(roots));
      MergeTopped(nodes, roots, keep);
      AttachTopped(nodes + [parent], MergeOnce(roots), keep);
      AddedAfter(nodes, parent, next.added);
      assert Attach(roots).added == [parent] + next.added && Attach(roots).roots == next.roots;
    } else {
      assert nodes + [] == nodes;
    }
  }

  lemma {:induction false} AddedAfter(nodes: seq<Node>, x: Node, more: seq<Node>)
    ensures nodes + [x] + more == nodes + ([x] + more)
  {
  }

  lemma {:induction false} MergeTopped(nodes: seq<Node>, roots: seq<Node>, keep: set<Pos>)
    requires Mergeable(roots) && Topped(nodes, Positions(roots) + keep)
    ensures Topped(nodes + [MergedParent(roots)], Positions(MergeOnce(roots)) + keep)
  {
    MergedPositions(roots);
    Push(nodes, MergedParent(roots), Positions(roots) + keep, Positions(MergeOnce(roots)) + keep);
  }

  lemma {:induction false} MergedPositions(roots: seq<Node>)
    requires Mergeable(roots)
    ensures MergedParent(roots).pos in Positions(MergeOnce(roots))
    ensures forall p :: p in Positions(roots) ==> p in Positions(MergeOnce(roots)) || Parent(p) == MergedParent(roots).pos
  {
    var a, b, front := Last(roots), roots[|roots| - 2], roots[..|roots| - 2];
    assert roots == front + [b, a];
    PositionsConcat(front, [b, a]);
    PositionsConcat(front, [MergedParent(roots)]);
    assert Positions([b, a]) == {b.pos, a.pos};
    assert MergedParent(roots) in [MergedParent(roots)];
  }

  ghost predicate DraftTopped(d: Draft, keep: set<Pos>) {
    Topped(d.nodes, Positions(d.roots) + keep)
  }

  lemma {:induction false} AppendRootTopped(d: Draft, node: Node, was: set<Pos>, keep: set<Pos>)
    requires DraftTopped(d, was) && was <= keep + {node.pos}
    ensures DraftTopped(AppendRootSpec(d, node).0, keep)
  {
    PositionsConcat(d.roots, [node]);
    assert node in [node];
    Push(d.nodes, node, Positions(d.roots) + was, Positions(d.roots + [node]) + keep);
    AttachTopped(d.nodes + [node], d.roots + [node], keep);
  }

  lemma {:induction false} GrowTopped(d: Draft, q: Queue, it: Pos, target: Pos)
    requires DraftTopped(d, ExtraPos(q)) && Grow(d, q, it, target).Ok?
    ensures var r := Grow(d, q, it, target).value; DraftTopped(r.0, ExtraPos(r.1))
    decreases Size(q)
  {
    if it != target {
      var s := Shift(q, Sibling(it)).value;
      ShiftedPos(q, Sibling(it));
      AppendRootTopped(d, s.0, ExtraPos(q), ExtraPos(s.1));
      var next := AppendRootSpec(d, s.0);
      GrowTopped(next.0, s.1, next.1, target);
    }
  }

  lemma {:induction false} UpgradeRootsTopped(d: Draft, q: Queue, i: nat, grow: bool, s: nat, b: nat)
    requires DraftTopped(d, ExtraPos(q)) && UpgradeRoots(d, q, i, grow, s, b).Ok?
    ensures var r := UpgradeRoots(d, q, i, grow, s, b).value; DraftTopped(r.0, ExtraPos(r.1))
    decreases b - s
  {
    if s < b {
      var r := FullRoot(s, b);
      if i < |d.roots| && d.roots[i].pos == r {
        UpgradeRootsTopped(d, q, i + 1, grow, Hi(r), b);
      } else if grow && i < |d.roots| {
        GrowTopped(d, q, Last(d.roots).pos, r);
        var g := Grow(d, q, Last(d.roots).pos, r).value;
        UpgradeRootsTopped(g.0, g.1, i, false, Hi(r), b);
      } else {
        var x := Shift(q, r).value;
        ShiftedPos(q, r);
        AppendRootTopped(d, x.0, ExtraPos(q), ExtraPos(x.1));
        var next := AppendRootSpec(d, x.0);
        UpgradeRootsTopped(next.0, x.1, i, false, Hi(next.1), b);
      }
    }
  }

  lemma {:induction false} ExtraUpTopped(d: Draft, extra: seq<Node>, it: Pos, keep: set<Pos>)
    requires DraftTopped(d, keep)
    ensures DraftTopped(ExtraUp(d, extra, it).0, keep)
    decreases |extra|
  {
    if extra != [] && extra[0].pos == Sibling(it) {
      AppendRootTopped(d, extra[0], keep, keep);
      var next := AppendRootSpec(d, extra[0]);
      ExtraUpTopped(next.0, extra[1..], next.1, keep);
    }
  }

  lemma {:induction false} ExtraDownTopped(d: Draft, extra: seq<Node>, it: Pos, keep: set<Pos>)
    requires DraftTopped(d, keep) && ExtraDown(d, extra, it).Ok?
    ensures DraftTopped(ExtraDown(d, extra, it).value, keep)
    decreases |extra|
  {
    if extra != [] {
      AppendRootTopped(d, extra[0], keep, keep);
      var next := AppendRootSpec(d, extra[0]);
      ExtraDownTopped(next.0, extra[1..], Sibling(next.1), keep);
    }
  }

  lemma {:induction false} AdditionalTopped(d: Draft, extra: seq<Node>, keep: set<Pos>)
    requires DraftTopped(d, keep) && Additional(d, extra).Ok?
    ensures DraftTopped(Additional(d, extra).value, keep)
  {
    var it := Last(d.roots).pos;
    var up := ExtraUp(d, extra, it);
    ExtraUpTopped(d, extra, it, keep);
    ExtraDownTopped(up.0, up.1, up.2, keep);
  }

  lemma {:induction false} UpgradeTopped(d: Draft, u: DataUpgrade, root: Option<Node>)
    requires DraftTopped(d, ExtraPos(Queue(u.nodes, root))) && UpgradeSpec(d, u, root).Ok?
    ensures var r := UpgradeSpec(d, u, root).value; DraftTopped(r.0, ExtraPos(r.1))
  {
    var q, b := Queue(u.nodes, root), u.start + u.length;
    UpgradeRootsTopped(d, q, 0, d.roots != [], 0, b);
    var r := RootsPhase(d, q, b).value;
    AdditionalTopped(r.0, u.additionalNodes, ExtraPos(r.1));
  }

  // ---------------------------------------------------------------- accepted proofs

  lemma {:induction false} ToppedBy(nodes: seq<Node>, tops: set<Pos>, tops': set<Pos>)
    requires Topped(nodes, tops) && tops <= tops'
    ensures Topped(nodes, tops')
  {
    forall a: nat | a < |nodes|
      ensures Capped(nodes, tops', a)
    {
      assert Capped(nodes, tops, a);
    }
  }

  /** In an accepted changeset every node leads up, in order, to a new root or to a node that was known. */
  lemma {:induction false} AcceptedLeadsUp(t: Tree, proof: Proof, signed: set<Signable>)
    requires VerifyProofSpec(t, proof, signed).Ok?
    ensures var d := VerifyProofSpec(t, proof, signed).value; Topped(d.nodes, Positions(d.roots) + t.view.Keys)
  {
    var root, d0, d, extra := AcceptedSteps(t, proof, signed);
    VerifyTreeTopped(proof.block, proof.hash, proof.seek);
    var tops := ExtraPos(Queue([], root));
    if proof.upgrade.Some? {
      ToppedBy(d0.nodes, tops, Positions(d0.roots) + tops);
      UpgradeTopped(d0, proof.upgrade.value, root);
      UpgradeVouches([], d0, proof.upgrade.value, root);
      ToppedBy(d.nodes, Positions(d.roots) + ExtraPos(Queue([], extra)), Positions(d.roots) + t.view.Keys);
    } else {
      ToppedBy(d.nodes, tops, Positions(d.roots) + t.view.Keys);
    }
  }
}
