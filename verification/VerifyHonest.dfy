/** Verification accepts the writer's own nodes, and what it then holds is the writer's tree. */
module VerifyHonest {
  import opened Common
  import opened FlatTree
  import opened Hashes
  import opened Changesets
  import opened Verify

  // ---------------------------------------------------------------- what the writer sends

  /** Siblings on the way up from `p`. */
  function SiblingPath(p: Pos, k: nat): seq<Pos>
    decreases k
  {
    if k == 0 then [] else [Sibling(p)] + SiblingPath(Parent(p), k - 1)
  }

  /** What a climb pushes: each sibling followed by the parent it completes. */
  function ClimbPositions(p: Pos, k: nat): seq<Pos>
    decreases k
  {
    if k == 0 then [] else [Sibling(p), Parent(p)] + ClimbPositions(Parent(p), k - 1)
  }

  /** Every position completed by attaching the subtrees `ps` one after the other. */
  function Completed(ps: seq<Pos>): seq<Pos> {
    if ps == [] then [] else MergeChain(ps[0]) + Completed(ps[1..])
  }

  /** The queue hands out the writer's nodes at the positions `ps`, in that order. */
  predicate Supplies(log: seq<Block>, q: Queue, ps: seq<Pos>)
    decreases |ps|
  {
    ps == []
    || (if q.extra.Some? && q.extra.value.pos == ps[0]
        then q.extra.value == NodeAt(log, ps[0]) && Supplies(log, Queue(q.rest, None), ps[1..])
        else q.rest != [] && q.rest[0] == NodeAt(log, ps[0]) && Supplies(log, Queue(q.rest[1..], q.extra), ps[1..]))
  }

  /** The extra node once `ps` have been handed out. */
  function ExtraAfter(extra: Option<Node>, ps: seq<Pos>): Option<Node> {
    if extra.Some? && extra.value.pos in ps then None else extra
  }

  // ---------------------------------------------------------------- verify_tree

  lemma {:induction false} ClimbHonest(log: seq<Block>, p: Pos, k: nat, acc: seq<Node>)
    ensures Climb(Queue(NodesAt(log, SiblingPath(p, k)), None), NodeAt(log, p), acc)
            == Ok((NodeAt(log, Up(p, k)), acc + NodesAt(log, ClimbPositions(p, k))))
    decreases k
  {
    var ps := SiblingPath(p, k);
    var q := Queue(NodesAt(log, ps), None);
    if k > 0 {
      ParentOfSiblings(log, p);
      assert NodesAt(log, ps)[1..] == NodesAt(log, SiblingPath(Parent(p), k - 1));
      var acc' := acc + [NodeAt(log, Sibling(p)), NodeAt(log, Parent(p))];
      ClimbHonest(log, Parent(p), k - 1, acc');
      var rest := ClimbPositions(Parent(p), k - 1);
      NodesAtConcat(log, [Sibling(p), Parent(p)], rest);
      assert NodesAt(log, [Sibling(p), Parent(p)]) == [NodeAt(log, Sibling(p)), NodeAt(log, Parent(p))];
      assert acc' + NodesAt(log, rest) == acc + NodesAt(log, ClimbPositions(p, k));
    } else {
      assert acc + NodesAt(log, []) == acc;
    }
  }

  /** A block with the siblings above it hashes to the writer's node `k` levels up. */
  lemma {:induction false} BlockHonest(log: seq<Block>, i: nat, k: nat)
    requires i < |log|
    ensures VerifyTreeSpec(Some(DataBlock(i, log[i], NodesAt(log, SiblingPath(Leaf(i), k)))), None, None)
            == Ok((Some(NodeAt(log, Up(Leaf(i), k))), NodesAt(log, [Leaf(i)] + ClimbPositions(Leaf(i), k))))
  {
    var node := BlockNode(Leaf(i), log[i]);
    assert node == NodeAt(log, Leaf(i));
    ClimbHonest(log, Leaf(i), k, [node]);
    assert [] + [node] == [node];
    NodesAtConcat(log, [Leaf(i)], ClimbPositions(Leaf(i), k));
    NodesAtOne(log, Leaf(i));
  }

  // ---------------------------------------------------------------- hashes and seeks

  /** The same from any queue that hands out the siblings, its extra node included. */
  lemma {:induction false} ClimbSupplied(log: seq<Block>, q: Queue, p: Pos, k: nat, acc: seq<Node>)
    requires Supplies(log, q, SiblingPath(p, k)) && Size(q) == k
    ensures Climb(q, NodeAt(log, p), acc) == Ok((NodeAt(log, Up(p, k)), acc + NodesAt(log, ClimbPositions(p, k))))
    decreases k
  {
    if k > 0 {
      ParentOfSiblings(log, p);
      var next := Shift(q, Sibling(p)).value.1;
      var acc' := acc + [NodeAt(log, Sibling(p)), NodeAt(log, Parent(p))];
      ClimbSupplied(log, next, Parent(p), k - 1, acc');
      OneLevelMore(log, p, k, acc);
    } else {
      assert acc + NodesAt(log, []) == acc;
    }
  }

  lemma {:induction false} OneLevelMore(log: seq<Block>, p: Pos, k: nat, acc: seq<Node>)
    requires k > 0
    ensures acc + [NodeAt(log, Sibling(p)), NodeAt(log, Parent(p))] + NodesAt(log, ClimbPositions(Parent(p), k - 1))
            == acc + NodesAt(log, ClimbPositions(p, k))
  {
    NodesAtConcat(log, [Sibling(p), Parent(p)], ClimbPositions(Parent(p), k - 1));
    assert NodesAt(log, [Sibling(p), Parent(p)]) == [NodeAt(log, Sibling(p)), NodeAt(log, Parent(p))];
  }

  /** The writer's nodes for a bare hash or a seek: the node at `p` and the siblings above it. */
  function NodesFrom(log: seq<Block>, p: Pos, k: nat): seq<Node> {
    [NodeAt(log, p)] + NodesAt(log, SiblingPath(p, k))
  }

  /** They lead to the writer's node `k` levels up. */
  lemma {:induction false} FromHonest(log: seq<Block>, p: Pos, k: nat)
    ensures ClimbFrom(Queue(NodesFrom(log, p, k), None), p, None, [])
            == Ok((NodeAt(log, Up(p, k)), NodesAt(log, [p] + ClimbPositions(p, k))))
  {
    assert NodesFrom(log, p, k)[1..] == NodesAt(log, SiblingPath(p, k));
    ClimbHonest(log, p, k, [NodeAt(log, p)]);
    assert [] + [NodeAt(log, p)] == [NodeAt(log, p)];
    NodesAtConcat(log, [p], ClimbPositions(p, k));
    NodesAtOne(log, p);
  }

  lemma {:induction false} HashHonest(log: seq<Block>, p: Pos, k: nat)
    ensures VerifyTreeSpec(None, Some(DataHash(p, NodesFrom(log, p, k))), None)
            == Ok((Some(NodeAt(log, Up(p, k))), NodesAt(log, [p] + ClimbPositions(p, k))))
  {
    FromHonest(log, p, k);
  }

  lemma {:induction false} SeekHonest(log: seq<Block>, p: Pos, k: nat, bytes: nat)
    ensures VerifyTreeSpec(None, None, Some(DataSeek(bytes, NodesFrom(log, p, k))))
            == Ok((Some(NodeAt(log, Up(p, k))), NodesAt(log, [p] + ClimbPositions(p, k))))
  {
    FromHonest(log, p, k);
  }

  /** All positions but one, which the extra node stands for. */
  lemma {:induction false} SuppliesBut(log: seq<Block>, ps: seq<Pos>, m: nat)
    requires m < |ps| && forall j :: 0 <= j < m ==> ps[j] != ps[m]
    ensures Supplies(log, Queue(NodesAt(log, ps[..m] + ps[m + 1..]), Some(NodeAt(log, ps[m]))), ps)
  {
    var others := ps[..m] + ps[m + 1..];
    if m == 0 {
      assert others == ps[1..];
      SuppliesThese(log, ps[1..]);
    } else {
      assert ps[1..][m - 1] == ps[m] && others[1..] == ps[1..][..m - 1] + ps[1..][m..];
      SuppliesBut(log, ps[1..], m - 1);
      assert NodesAt(log, others)[1..] == NodesAt(log, others[1..]);
    }
  }

  lemma {:induction false} SuppliesThese(log: seq<Block>, ps: seq<Pos>)
    ensures Supplies(log, Queue(NodesAt(log, ps), None), ps)
  {
    if ps != [] {
      assert NodesAt(log, ps)[1..] == NodesAt(log, ps[1..]);
      SuppliesThese(log, ps[1..]);
    }
  }

  lemma {:induction false} SiblingPathDepths(p: Pos, k: nat, j: nat)
    requires j < k
    ensures |SiblingPath(p, k)| == k && SiblingPath(p, k)[j].depth == p.depth + j
    decreases k
  {
    if j > 0 {
      SiblingPathDepths(Parent(p), k - 1, j - 1);
    } else if k > 1 {
      SiblingPathDepths(Parent(p), k - 1, 0);
    }
  }

  /**
   A seek whose root is one of the siblings above a block stands in for that sibling: both together lead to the writer's
   node above the block.
   */
  lemma {:induction false} SeekWithBlockHonest(log: seq<Block>, i: nat, k: nat, m: nat, s: Pos, j: nat, bytes: nat)
    requires i < |log| && m < k && |SiblingPath(Leaf(i), k)| == k && Up(s, j) == SiblingPath(Leaf(i), k)[m]
    ensures var ps := SiblingPath(Leaf(i), k);
            var block := DataBlock(i, log[i], NodesAt(log, ps[..m] + ps[m + 1..]));
            VerifyTreeSpec(Some(block), None, Some(DataSeek(bytes, NodesFrom(log, s, j))))
            == Ok((Some(NodeAt(log, Up(Leaf(i), k))),
                   NodesAt(log, [s] + ClimbPositions(s, j)) + [NodeAt(log, Leaf(i))]
                   + NodesAt(log, ClimbPositions(Leaf(i), k))))
  {
    var ps := SiblingPath(Leaf(i), k);
    FromHonest(log, s, j);
    forall j' | 0 <= j' < m
      ensures ps[j'] != ps[m]
    {
      SiblingPathDepths(Leaf(i), k, j');
      SiblingPathDepths(Leaf(i), k, m);
    }
    SuppliesBut(log, ps, m);
    var node := BlockNode(Leaf(i), log[i]);
    assert node == NodeAt(log, Leaf(i));
    ClimbSupplied(log, Queue(NodesAt(log, ps[..m] + ps[m + 1..]), Some(NodeAt(log, ps[m]))), Leaf(i), k,
                  NodesAt(log, [s] + ClimbPositions(s, j)) + [node]);
  }

  // ---------------------------------------------------------------- verify_upgrade

  lemma {:induction false} ShiftHonest(log: seq<Block>, q: Queue, ps: seq<Pos>)
    requires ps != [] && Supplies(log, q, ps)
    ensures Shift(q, ps[0]).Ok?
    ensures var (node, q') := Shift(q, ps[0]).value;
            node == NodeAt(log, ps[0]) && Supplies(log, q', ps[1..])
  {
  }

  /** State of an honest upgrade that has reached length `n` with the blocks up to `b` still to come. */
  ghost predicate At(log: seq<Block>, d: Draft, q: Queue, n: nat, b: nat) {
    n <= b && d.length == n && d.roots == NodesAt(log, Roots(n)) && Supplies(log, q, Path(n, b))
  }

  /** The rest of the upgrade leads from one state to the other. */
  ghost predicate Leads(log: seq<Block>, d: Draft, q: Queue, n: nat, d': Draft, q': Queue, n': nat, b: nat) {
    && d'.nodes + NodesAt(log, Completed(Path(n', b))) == d.nodes + NodesAt(log, Completed(Path(n, b)))
    && ExtraAfter(q'.extra, Path(n', b)) == ExtraAfter(q.extra, Path(n, b))
  }

  lemma {:induction false} LeadsTransitive(log: seq<Block>, d: Draft, q: Queue, n: nat, d1: Draft, q1: Queue, n1: nat,
                        d2: Draft, q2: Queue, n2: nat, b: nat)
    requires Leads(log, d, q, n, d1, q1, n1, b) && Leads(log, d1, q1, n1, d2, q2, n2, b)
    ensures Leads(log, d, q, n, d2, q2, n2, b)
  {
  }

  /** Attaching the first subtree of a path completes the first part of what the path completes. */
  lemma {:induction false} CompletedStep(log: seq<Block>, nodes: seq<Node>, n: nat, b: nat)
    requires n < b
    ensures var r := FullRoot(n, b);
            nodes + NodesAt(log, MergeChain(r)) + NodesAt(log, Completed(Path(Hi(r), b)))
            == nodes + NodesAt(log, Completed(Path(n, b)))
  {
    var r := FullRoot(n, b);
    var ps := Path(n, b);
    assert ps[0] == r && ps[1..] == Path(Hi(r), b);
    NodesAtConcat(log, MergeChain(r), Completed(Path(Hi(r), b)));
  }

  lemma {:induction false} ShiftLeads(log: seq<Block>, q: Queue, n: nat, b: nat)
    requires n < b && Supplies(log, q, Path(n, b))
    ensures var r := FullRoot(n, b);
            && Shift(q, r).Ok?
            && var (node, q') := Shift(q, r).value;
            && node == NodeAt(log, r) && Supplies(log, q', Path(Hi(r), b))
            && ExtraAfter(q'.extra, Path(Hi(r), b)) == ExtraAfter(q.extra, Path(n, b))
  {
    var r := FullRoot(n, b);
    var ps := Path(n, b);
    assert ps[0] == r && ps[1..] == Path(Hi(r), b) && ps == [r] + ps[1..];
    ShiftHonest(log, q, ps);
  }

  /** Taking one node and attaching it. */
  lemma {:induction false} StepHonest(log: seq<Block>, d: Draft, q: Queue, r: Pos, b: nat)
    requires At(log, d, q, Lo(r), b) && Lo(r) < b && FullRoot(Lo(r), b) == r
    ensures Shift(q, r).Ok?
    ensures var (node, q') := Shift(q, r).value;
            var (d', it) := AppendRootSpec(d, node);
            At(log, d', q', Hi(r), b) && it == LastRoot(Hi(r)) && Leads(log, d, q, Lo(r), d', q', Hi(r), b)
  {
    ShiftLeads(log, q, Lo(r), b);
    AppendRootHonest(log, d, r);
    CompletedStep(log, d.nodes, Lo(r), b);
  }

  /** Growing the last root towards `r`: its right sibling is the next subtree. */
  lemma {:induction false} GrowGeometry(n: nat, r: Pos, b: nat)
    requires n > 0 && Hi(r) <= b && r.offset % 2 == 0
    requires Within(LastRoot(n), r) && LastRoot(n) != r
    ensures var sib := Sibling(LastRoot(n));
            Lo(sib) == n < b && FullRoot(n, b) == sib && n < Hi(sib) && Within(LastRoot(Hi(sib)), r)
  {
    var it := LastRoot(n);
    RightSiblingFits(it, r, b);
    WithinSpan(it, r);
    LastRootWithin(Hi(Sibling(it)), r);
  }

  lemma {:induction false} GrowHonest(log: seq<Block>, d: Draft, q: Queue, n: nat, r: Pos, b: nat)
    requires n > 0 && At(log, d, q, n, b) && Hi(r) <= b && r.offset % 2 == 0
    requires Within(LastRoot(n), r)
    ensures Grow(d, q, LastRoot(n), r).Ok?
    ensures var (d', q') := Grow(d, q, LastRoot(n), r).value;
            At(log, d', q', Hi(r), b) && Leads(log, d, q, n, d', q', Hi(r), b)
    decreases Size(q)
  {
    var it := LastRoot(n);
    if it != r {
      var sib := Sibling(it);
      GrowGeometry(n, r, b);
      StepHonest(log, d, q, sib, b);
      var (node, q') := Shift(q, sib).value;
      var (d', it') := AppendRootSpec(d, node);
      GrowHonest(log, d', q', Hi(sib), r, b);
      assert Grow(d, q, it, r) == Grow(d', q', it', r);
      var (d2, q2) := Grow(d', q', it', r).value;
      LeadsTransitive(log, d, q, n, d', q', Hi(sib), d2, q2, Hi(r), b);
    }
  }

  /** The last root of a length that ends inside `r` lies inside `r`. */
  lemma {:induction false} LastRootWithin(n: nat, r: Pos)
    requires Lo(r) < n <= Hi(r) && r.offset % 2 == 0
    ensures Within(LastRoot(n), r)
  {
    var c := LastRoot(n);
    ParentSpan(c);
    if c.depth <= r.depth {
      SharedLeafNests(c, r, n - 1);
    } else {
      SharedLeafNests(r, c, n - 1);
      WithinSpan(r, c);
      WithinSpan(Parent(r), c);
      ParentSpan(r);
    }
  }

  /** Past the old length every full root is attached whole. */
  lemma {:induction false} UpgradePastHonest(log: seq<Block>, d: Draft, q: Queue, i: nat, grow: bool, s: nat, b: nat)
    requires At(log, d, q, s, b) && (grow ==> i >= |d.roots|)
    ensures UpgradeRoots(d, q, i, grow, s, b).Ok?
    ensures var (d', q') := UpgradeRoots(d, q, i, grow, s, b).value;
            At(log, d', q', b, b) && Leads(log, d, q, s, d', q', b, b)
    decreases b - s
  {
    if s < b {
      var r := FullRoot(s, b);
      if i < |d.roots| {
        RootsSpan(s, i);
        assert d.roots[i].pos != r;
      }
      StepHonest(log, d, q, r, b);
      var (node, q') := Shift(q, r).value;
      var (d', it') := AppendRootSpec(d, node);
      UpgradePastHonest(log, d', q', i, false, Hi(r), b);
      var (d2, q2) := UpgradeRoots(d', q', i, false, Hi(r), b).value;
      LeadsTransitive(log, d, q, s, d', q', Hi(r), d2, q2, b, b);
    }
  }

  /** Up to the old length the roots are shared, then the last old root grows into a new one. */
  lemma {:induction false} UpgradeRootsHonest(log: seq<Block>, d: Draft, q: Queue, i: nat, m: nat, b: nat)
    requires At(log, d, q, m, b) && i <= |Roots(m)| && i <= |Roots(b)|
    requires Boundary(m, i) == Boundary(b, i)
    ensures UpgradeRoots(d, q, i, d.roots != [], Boundary(m, i), b).Ok?
    ensures var (d', q') := UpgradeRoots(d, q, i, d.roots != [], Boundary(m, i), b).value;
            At(log, d', q', b, b) && Leads(log, d, q, m, d', q', b, b)
    decreases |Roots(m)| - i
  {
    var s := Boundary(m, i);
    if i == |Roots(m)| {
      UpgradePastHonest(log, d, q, i, d.roots != [], m, b);
    } else {
      var r := SharedBoundary(m, b, i);
      if Roots(m)[i] == r {
        RootsAdjacent(m, i);
        RootsAdjacent(b, i);
        UpgradeRootsHonest(log, d, q, i + 1, m, b);
      } else {
        GrowPhaseHonest(log, d, q, i, m, r, b);
      }
    }
  }

  /** Where two lengths still share a boundary, either they share the root or the longer one's passes `m`. */
  lemma {:induction false} SharedBoundary(m: nat, b: nat, i: nat) returns (r: Pos)
    requires m <= b && i < |Roots(m)| && i <= |Roots(b)| && Boundary(m, i) == Boundary(b, i)
    ensures i < |Roots(b)| && r == Roots(b)[i]
    ensures Lo(r) == Boundary(m, i) < m && FullRoot(Lo(r), b) == r
    ensures r.offset % 2 == 0 && Hi(r) <= b
    ensures r != Roots(m)[i] ==> m < Hi(r)
  {
    var r0 := Roots(m)[i];
    RootsSpan(m, i);
    RootsMaximal(m, i);
    FullRootIs(r0, m);
    r := Roots(b)[i];
    RootsSpan(b, i);
    RootsMaximal(b, i);
    FullRootIs(r, b);
    if Hi(r) <= m {
      FullRootIs(r, m);
    }
  }

  lemma {:induction false} GrowsInto(d: Draft, q: Queue, i: nat, r: Pos, b: nat, d': Draft, q': Queue)
    requires i < |d.roots| && d.roots[i].pos != r && Lo(r) < b && FullRoot(Lo(r), b) == r
    requires Grow(d, q, Last(d.roots).pos, r) == Ok((d', q'))
    ensures UpgradeRoots(d, q, i, true, Lo(r), b) == UpgradeRoots(d', q', i, false, Hi(r), b)
  {
  }

  lemma {:induction false} GrowPhaseHonest(log: seq<Block>, d: Draft, q: Queue, i: nat, m: nat, r: Pos, b: nat)
    requires At(log, d, q, m, b) && i < |Roots(m)| && Roots(m)[i] != r
    requires Lo(r) < m < Hi(r) <= b && r.offset % 2 == 0 && FullRoot(Lo(r), b) == r
    ensures UpgradeRoots(d, q, i, true, Lo(r), b).Ok?
    ensures var (d', q') := UpgradeRoots(d, q, i, true, Lo(r), b).value;
            At(log, d', q', b, b) && Leads(log, d, q, m, d', q', b, b)
  {
    LastRootWithin(m, r);
    assert Last(d.roots).pos == LastRoot(m);
    GrowHonest(log, d, q, m, r, b);
    var (d', q') := Grow(d, q, LastRoot(m), r).value;
    GrowsInto(d, q, i, r, b, d', q');
    UpgradePastHonest(log, d', q', i, false, Hi(r), b);
    var (d2, q2) := UpgradeRoots(d', q', i, false, Hi(r), b).value;
    LeadsTransitive(log, d, q, m, d', q', Hi(r), d2, q2, b, b);
  }

  // ---------------------------------------------------------------- additional nodes

  lemma {:induction false} DescendsToLeft(p: Pos, k: nat)
    requires k <= p.depth
    ensures DescendsTo(p, LeftDescendant(p, k))
    decreases k
  {
    if k > 0 {
      DescendsToLeft(LeftChild(p), k - 1);
    }
  }

  /** One additional node: where it is, and what attaching it does. */
  lemma {:induction false} ExtraStep(log: seq<Block>, d: Draft, l: nat, n: nat)
    requires 0 < l < n && d.length == l && d.roots == NodesAt(log, Roots(l))
    ensures var r := FullRoot(l, n);
            var (d', it) := AppendRootSpec(d, NodeAt(log, r));
            && DescendsTo(Sibling(LastRoot(l)), r)
            && d'.length == Hi(r) && d'.roots == NodesAt(log, Roots(Hi(r))) && it == LastRoot(Hi(r))
            && d'.nodes + NodesAt(log, Completed(Path(Hi(r), n))) == d.nodes + NodesAt(log, Completed(Path(l, n)))
  {
    var r := FullRoot(l, n);
    AppendRootHonest(log, d, r);
    CompletedStep(log, d.nodes, l, n);
    NextIsBelow(l, n);
  }

  /** The next full root is a left descendant of the last root's sibling. */
  lemma {:induction false} NextIsBelow(l: nat, n: nat)
    requires 0 < l < n
    ensures DescendsTo(Sibling(LastRoot(l)), FullRoot(l, n))
  {
    var sib := Sibling(LastRoot(l));
    ParentSpan(LastRoot(l));
    LeftDescendantSpan(sib, sib.depth);
    var j := FullRootBelow(sib, sib.depth, n);
    DescendsToLeft(sib, j);
  }

  lemma {:induction false} ExtraUpHonest(log: seq<Block>, d: Draft, l: nat, n: nat) returns (l': nat)
    requires 0 < l <= n && d.length == l && d.roots == NodesAt(log, Roots(l))
    ensures 0 < l' <= n
    ensures var (d', rest, it) := ExtraUp(d, NodesAt(log, Path(l, n)), LastRoot(l));
            && d'.length == l' && d'.roots == NodesAt(log, Roots(l')) && rest == NodesAt(log, Path(l', n))
            && (rest != [] ==> it == Sibling(LastRoot(l')))
            && d'.nodes + NodesAt(log, Completed(Path(l', n))) == d.nodes + NodesAt(log, Completed(Path(l, n)))
    decreases n - l
  {
    var extra := NodesAt(log, Path(l, n));
    l' := l;
    if l < n && extra[0].pos == Sibling(LastRoot(l)) {
      var r := FullRoot(l, n);
      ExtraStep(log, d, l, n);
      var (d', it) := AppendRootSpec(d, extra[0]);
      assert extra[1..] == NodesAt(log, Path(Hi(r), n));
      l' := ExtraUpHonest(log, d', Hi(r), n);
    }
  }

  lemma {:induction false} ExtraDownHonest(log: seq<Block>, d: Draft, l: nat, n: nat, it: Pos)
    requires 0 < l <= n && d.length == l && d.roots == NodesAt(log, Roots(l))
    requires l < n ==> it == Sibling(LastRoot(l))
    ensures ExtraDown(d, NodesAt(log, Path(l, n)), it).Ok?
    ensures var d' := ExtraDown(d, NodesAt(log, Path(l, n)), it).value;
            d'.length == n && d'.roots == NodesAt(log, Roots(n))
            && d'.nodes == d.nodes + NodesAt(log, Completed(Path(l, n)))
    decreases n - l
  {
    var extra := NodesAt(log, Path(l, n));
    if l == n {
      assert d.nodes + NodesAt(log, []) == d.nodes;
    } else {
      var r := FullRoot(l, n);
      ExtraStep(log, d, l, n);
      var (d', it') := AppendRootSpec(d, extra[0]);
      assert extra[1..] == NodesAt(log, Path(Hi(r), n));
      ExtraDownHonest(log, d', Hi(r), n, Sibling(it'));
    }
  }

  lemma {:induction false} AdditionalHonest(log: seq<Block>, d: Draft, b: nat, n: nat)
    requires 0 < b <= n && d.length == b && d.roots == NodesAt(log, Roots(b))
    ensures Additional(d, NodesAt(log, Path(b, n))).Ok?
    ensures var d' := Additional(d, NodesAt(log, Path(b, n))).value;
            d'.length == n && d'.roots == NodesAt(log, Roots(n))
            && d'.nodes == d.nodes + NodesAt(log, Completed(Path(b, n)))
  {
    RootsStart(b);
    assert Last(d.roots).pos == LastRoot(b);
    var l := ExtraUpHonest(log, d, b, n);
    var (d', rest, it) := ExtraUp(d, NodesAt(log, Path(b, n)), LastRoot(b));
    if l < n {
      assert Path(l, n) != [];
    }
    ExtraDownHonest(log, d', l, n, it);
  }

  lemma {:induction false} RootsPhaseHonest(log: seq<Block>, d: Draft, q: Queue, m: nat, b: nat)
    requires d.length == m && d.roots == NodesAt(log, Roots(m)) && m <= b
    requires Supplies(log, q, Path(m, b))
    ensures RootsPhase(d, q, b).Ok?
    ensures var (d', q') := RootsPhase(d, q, b).value;
            && d'.length == b && d'.roots == NodesAt(log, Roots(b))
            && d'.nodes == d.nodes + NodesAt(log, Completed(Path(m, b)))
            && q'.extra == ExtraAfter(q.extra, Path(m, b))
  {
    RootsStart(m);
    RootsStart(b);
    UpgradeRootsHonest(log, d, q, 0, m, b);
    var d' := RootsPhase(d, q, b).value.0;
    assert Completed(Path(b, b)) == [];
    assert d'.nodes + NodesAt(log, []) == d'.nodes;
  }

  /** Every position completed by an upgrade with its additional nodes. */
  function UpgradePositions(m: nat, b: nat, n: nat): seq<Pos> {
    Completed(Path(m, b)) + Completed(Path(b, n))
  }

  lemma {:induction false} UpgradeNodes(log: seq<Block>, nodes: seq<Node>, m: nat, b: nat, n: nat)
    ensures nodes + NodesAt(log, Completed(Path(m, b))) + NodesAt(log, Completed(Path(b, n)))
            == nodes + NodesAt(log, UpgradePositions(m, b, n))
  {
    NodesAtConcat(log, Completed(Path(m, b)), Completed(Path(b, n)));
  }

  lemma {:induction false} UpgradeInTwoSteps(d: Draft, u: DataUpgrade, blockRoot: Option<Node>, d1: Draft, q: Queue,
                                             d2: Draft)
    requires RootsPhase(d, Queue(u.nodes, blockRoot), u.start + u.length) == Ok((d1, q))
    requires Additional(d1, u.additionalNodes) == Ok(d2)
    ensures UpgradeSpec(d, u, blockRoot) == Ok((d2, q))
  {
  }

  /**
   The writer's upgrade from `m` to `b` blocks with the additional nodes up to `n`
   ends in the writer's roots at `n`, and takes the block root exactly when its
   position is one of those between `m` and `b`.
   */
  lemma {:induction false} UpgradeHonest(log: seq<Block>, d: Draft, u: DataUpgrade, blockRoot: Option<Node>, m: nat,
                                         b: nat, n: nat)
    requires d.length == m && d.roots == NodesAt(log, Roots(m))
    requires m <= b == u.start + u.length && 0 < b <= n
    requires Supplies(log, Queue(u.nodes, blockRoot), Path(m, b))
    requires u.additionalNodes == NodesAt(log, Path(b, n))
    ensures UpgradeSpec(d, u, blockRoot).Ok?
    ensures var (d', q) := UpgradeSpec(d, u, blockRoot).value;
            && d'.length == n && d'.roots == NodesAt(log, Roots(n))
            && d'.nodes == d.nodes + NodesAt(log, UpgradePositions(m, b, n))
            && q.extra == ExtraAfter(blockRoot, Path(m, b))
  {
    var q0 := Queue(u.nodes, blockRoot);
    RootsPhaseHonest(log, d, q0, m, b);
    var (d1, q) := RootsPhase(d, q0, b).value;
    AdditionalHonest(log, d1, b, n);
    UpgradeInTwoSteps(d, u, blockRoot, d1, q, Additional(d1, u.additionalNodes).value);
    UpgradeNodes(log, d.nodes, m, b, n);
  }
}
