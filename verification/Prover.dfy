/**
 Creation of proofs (src/tree/merkle_tree.rs, create_valueless_proof and its helpers)
 for block and upgrade requests. `view` is what the tree finds for each position.
 */
module Prover {
  import opened Common
  import opened FlatTree
  import opened Hashes
  import opened Verify
  import opened VerifyHonest

  type View = map<Pos, Node>

  datatype RequestBlock = RequestBlock(index: nat, nodes: nat)
  datatype RequestUpgrade = RequestUpgrade(start: nat, length: nat)
  /** A proof without the block's value; the caller adds it. */
  datatype ValuelessProof = ValuelessProof(fork: nat, block: Option<DataHash>, upgrade: Option<DataUpgrade>)
  datatype LocalProof = LocalProof(nodes: Option<seq<Node>>, upgrade: Option<seq<Node>>, additional: Option<seq<Node>>)

  predicate Held(view: View, ps: seq<Pos>) {
    forall p :: p in ps ==> p in view
  }

  function Lookup(view: View, ps: seq<Pos>): seq<Node>
    requires Held(view, ps)
  {
    seq(|ps|, i requires 0 <= i < |ps| => view[ps[i]])
  }

  /** Every known node is the writer's, hash and length. */
  ghost predicate ExactNodes(log: seq<Block>, view: View) {
    forall p :: p in view ==> view[p] == NodeAt(log, p)
  }

  /** The tree of a writer over `n` blocks: every complete subtree's node is found. */
  ghost predicate Full(view: View, log: seq<Block>, n: nat) {
    n <= |log| && forall p :: Hi(p) <= n ==> p in view && view[p] == NodeAt(log, p)
  }

  function RequiredNode(view: View, p: Pos): Result<Node> {
    if p in view then Ok(view[p]) else Err(InvalidOperation)
  }

  // ---------------------------------------------------------------- paths to a root

  /** None of the `k` nodes above block `i` holds block `head`. */
  predicate StaysBelow(i: nat, k: nat, head: nat) {
    forall j :: 1 <= j <= k ==> !HasLeaf(Up(Leaf(i), j), head)
  }

  /** `nodes_to_root`: climb `k` levels unless that leaves the tree. */
  method NodesToRoot(i: nat, k: nat, head: nat) returns (r: Result<Pos>)
    ensures r.Ok? <==> StaysBelow(i, k, head)
    ensures r.Ok? ==> r.value == Up(Leaf(i), k)
  {
    var it := Leaf(i);
    for j := 0 to k
      invariant it == Up(Leaf(i), j)
      invariant forall j' :: 1 <= j' <= j ==> !HasLeaf(Up(Leaf(i), j'), head)
    {
      UpParent(Leaf(i), j);
      it := Parent(it);
      if Contains(it, 2 * head) {
        assert HasLeaf(Up(Leaf(i), j + 1), head);
        return Err(InvalidOperation);
      }
    }
    return Ok(it);
  }

  lemma {:induction false} SiblingPathStep(p: Pos, k: nat)
    ensures SiblingPath(p, k + 1) == SiblingPath(p, k) + [Sibling(Up(p, k))]
    decreases k
  {
    if k > 0 {
      SiblingPathStep(Parent(p), k - 1);
    }
  }

  lemma {:induction false} SiblingPathPrefix(p: Pos, j: nat, k: nat)
    requires j <= k
    ensures SiblingPath(p, j) <= SiblingPath(p, k)
    decreases k
  {
    if j < k {
      SiblingPathPrefix(p, j, k - 1);
      SiblingPathStep(p, k - 1);
    }
  }

  /** `block_and_seek_proof` for a block: the siblings from block `i` up to `root`. */
  method BlockProof(view: View, i: nat, root: Pos) returns (r: Result<seq<Node>>)
    requires Within(Leaf(i), root)
    ensures r.Ok? <==> Held(view, SiblingPath(Leaf(i), root.depth))
    ensures r.Ok? ==> r.value == Lookup(view, SiblingPath(Leaf(i), root.depth))
  {
    var it := Leaf(i);
    var nodes: seq<Node> := [];
    ghost var k := 0;
    while it != root
      invariant k <= root.depth && it == Up(Leaf(i), k) && it.depth == k
      invariant Held(view, SiblingPath(Leaf(i), k)) && nodes == Lookup(view, SiblingPath(Leaf(i), k))
      decreases root.depth - k
    {
      SiblingPathStep(Leaf(i), k);
      UpParent(Leaf(i), k);
      SiblingPathPrefix(Leaf(i), k + 1, root.depth);
      match RequiredNode(view, Sibling(it)) {
        case Err(e) =>
          assert Sibling(it) in SiblingPath(Leaf(i), k + 1);
          return Err(e);
        case Ok(node) =>
          nodes := nodes + [node];
      }
      it := Parent(it);
      k := k + 1;
    }
    return Ok(nodes);
  }

  // ---------------------------------------------------------------- upgrade_proof

  /** Nodes sent so far, the block still to be proved, and its siblings once it has been. */
  datatype Sending = Sending(sent: seq<Node>, want: Option<nat>, nodes: Option<seq<Node>>)

  /** Send the node at `e`, unless `e` holds the wanted block: then prove the block up to `e`. */
  function Visit(view: View, st: Sending, e: Pos): Result<Sending> {
    if st.want.Some? && HasLeaf(e, st.want.value) then
      var path := SiblingPath(Leaf(st.want.value), e.depth);
      if Held(view, path) then Ok(Sending(st.sent, None, Some(Lookup(view, path)))) else Err(InvalidOperation)
    else
      match RequiredNode(view, e)
      case Ok(node) => Ok(st.(sent := st.sent + [node]))
      case Err(error) => Err(error)
  }

  function Send(view: View, st: Sending, ps: seq<Pos>): Result<Sending>
    decreases |ps|
  {
    if ps == [] then Ok(st)
    else match Visit(view, st, ps[0])
      case Ok(st') => Send(view, st', ps[1..])
      case Err(error) => Err(error)
  }

  lemma {:induction false} SendFirst(view: View, st: Sending, a: nat, b: nat)
    requires a < b
    ensures var r := FullRoot(a, b);
            Send(view, st, Path(a, b)) ==
            match Visit(view, st, r)
            case Ok(st') => Send(view, st', Path(Hi(r), b))
            case Err(error) => Err(error)
  {
    var r := FullRoot(a, b);
    assert Path(a, b)[0] == r && Path(a, b)[1..] == Path(Hi(r), b);
  }

  method VisitNode(view: View, st: Sending, e: Pos) returns (r: Result<Sending>)
    requires st.want.Some? ==> st.nodes.None?
    ensures r == Visit(view, st, e)
    ensures r.Ok? && r.value.want.Some? ==> r.value.nodes.None?
  {
    if st.nodes.None? && st.want.Some? && Contains(e, 2 * st.want.value) {
      LeafWithin(st.want.value, e);
      var path := BlockProof(view, st.want.value, e);
      match path {
        case Ok(nodes) => return Ok(Sending(st.sent, None, Some(nodes)));
        case Err(error) => return Err(InvalidOperation);
      }
    }
    match RequiredNode(view, e) {
      case Ok(node) => return Ok(st.(sent := st.sent + [node]));
      case Err(error) => return Err(error);
    }
  }

  /** The iterator's test `index + factor / 2 < from` asks whether the subtree ends by block `m`. */
  lemma {:induction false} EndsBy(r: Pos, m: nat)
    ensures Index(r) + HalfFactor(r) < 2 * m <==> Hi(r) <= m
  {
    IteratorSpan(r);
  }

  /** Climbing from block `m - 1`, a right sibling is the next subtree to send and a left one is passed over. */
  lemma {:induction false} ConnectStep(view: View, st: Sending, c: Pos, r: Pos, m: nat, b: nat)
    requires m > 0 && HasLeaf(c, m - 1) && Within(c, r) && c != r && Hi(r) <= b
    ensures Within(Parent(c), r) && HasLeaf(Parent(c), m - 1)
    ensures Index(Sibling(c)) > 2 * (m - 1) <==> c.offset % 2 == 0
    ensures c.offset % 2 == 1 ==> Hi(Parent(c)) == Hi(c)
    ensures c.offset % 2 == 0 ==>
              Send(view, st, Path(Hi(c), b)) ==
              match Visit(view, st, Sibling(c))
              case Ok(st') => Send(view, st', Path(Hi(Parent(c)), b))
              case Err(error) => Err(error)
  {
    WithinSpan(c, r);
    ParentSpan(c);
    IndexSpan(Sibling(c));
    if c.offset % 2 == 0 {
      RightSiblingFits(c, r, b);
      SendFirst(view, st, Hi(c), b);
    }
  }

  /** Connect the old tree: climb from block `m - 1` to `root`, sending what lies to the right. */
  method Connect(view: View, st0: Sending, m: nat, root: Pos, b: nat) returns (r: Result<Sending>)
    requires m > 0 && HasLeaf(root, m - 1) && Hi(root) <= b
    requires st0.want.Some? ==> st0.nodes.None?
    ensures Send(view, st0, Path(m, b)) ==
            match r
            case Ok(st) => Send(view, st, Path(Hi(root), b))
            case Err(error) => Err(error)
    ensures r.Ok? && r.value.want.Some? ==> r.value.nodes.None?
  {
    var st, target := st0, Leaf(m - 1);
    var it := target;
    LeafWithin(m - 1, root);
    while it != root
      invariant Within(it, root) && HasLeaf(it, m - 1)
      invariant st.want.Some? ==> st.nodes.None?
      invariant Send(view, st, Path(Hi(it), b)) == Send(view, st0, Path(m, b))
      decreases root.depth - it.depth
    {
      ConnectStep(view, st, it, root, m, b);
      var sib := Sibling(it);
      if Index(sib) > Index(target) {
        var step := VisitNode(view, st, sib);
        if step.Err? {
          return step;
        }
        st := step.value;
      }
      it := Parent(it);
    }
    return Ok(st);
  }

  /**
   `upgrade_proof` and `additional_upgrade_proof`: whatever the walk over the full
   roots and up from the last old block looks like, it visits exactly the greedy
   decomposition of the blocks [m, b), in order.
   */
  method UpgradeProof(view: View, st0: Sending, m: nat, b: nat) returns (r: Result<Sending>)
    requires m < b
    requires st0.want.Some? ==> st0.nodes.None?
    ensures r == Send(view, st0, Path(m, b))
  {
    var st := st0;
    var hasUpgrade := m == 0;
    var s := 0;
    ghost var at := m;
    while s < b
      invariant s <= b
      invariant !hasUpgrade ==> s <= m && at == m && m > 0
      invariant hasUpgrade ==> s == at && m <= s
      invariant st.want.Some? ==> st.nodes.None?
      invariant Send(view, st, Path(at, b)) == Send(view, st0, Path(m, b))
      decreases b - s
    {
      var root := FullRoot(s, b);
      EndsBy(root, m);
      if Index(root) + HalfFactor(root) < 2 * m {
        s := Hi(root);
        continue;
      }
      if !hasUpgrade && Contains(root, 2 * m - 2) {
        hasUpgrade := true;
        var connected := Connect(view, st, m, root, b);
        if connected.Err? {
          return connected;
        }
        st := connected.value;
        s := Hi(root);
        at := s;
        continue;
      }
      hasUpgrade := true;
      SendFirst(view, st, s, b);
      var step := VisitNode(view, st, root);
      if step.Err? {
        return step;
      }
      st := step.value;
      s := Hi(root);
      at := s;
    }
    return Ok(st);
  }

  // ---------------------------------------------------------------- create_valueless_proof

  /** The block lies below the upgrade, so its siblings go up to a node the peer knows. */
  predicate BelowUpgrade(block: Option<RequestBlock>, upgrade: Option<RequestUpgrade>) {
    block.Some? && (upgrade.Some? ==> block.value.index < upgrade.value.start)
  }

  /** The subtrees of an upgrade, and those behind it in a tree of `n` blocks. */
  function UpgradePath(upgrade: Option<RequestUpgrade>): seq<Pos> {
    if upgrade.Some? then Path(upgrade.value.start, upgrade.value.start + upgrade.value.length) else []
  }

  function PathBehind(n: nat, upgrade: Option<RequestUpgrade>): seq<Pos> {
    if upgrade.Some? then Path(upgrade.value.start + upgrade.value.length, n) else []
  }

  /** What create_valueless_proof computes, with the tree walks replaced by the positions they visit. */
  function ProofSpec(view: View, n: nat, fork: nat, signature: Option<Signature>,
                     block: Option<RequestBlock>, upgrade: Option<RequestUpgrade>): Result<ValuelessProof>
  {
    var (m, b) := if upgrade.Some? then (upgrade.value.start, upgrade.value.start + upgrade.value.length) else (0, n);
    if m >= b || b > n then Err(InvalidOperation)
    else ProofOver(view, b, UpgradePath(upgrade), PathBehind(n, upgrade), fork, signature, block, upgrade)
  }

  function ProofOver(view: View, b: nat, ps: seq<Pos>, qs: seq<Pos>, fork: nat, signature: Option<Signature>,
                     block: Option<RequestBlock>, upgrade: Option<RequestUpgrade>): Result<ValuelessProof>
  {
    match BlockSiblings(view, b, block, upgrade)
    case Err(e) => Err(e)
    case Ok(siblings) =>
      match UpgradeSending(view, ps, qs, siblings, block, upgrade)
      case Err(e) => Err(e)
      case Ok((st, additional)) => Assemble(fork, signature, block, upgrade, st, additional)
  }

  /** Siblings of a block below the upgrade; `None` when the upgrade itself will carry the block. */
  function BlockSiblings(view: View, b: nat, block: Option<RequestBlock>, upgrade: Option<RequestUpgrade>)
    : Result<Option<seq<Node>>>
  {
    if !BelowUpgrade(block, upgrade) then Ok(None)
    else
      var i, k := block.value.index, block.value.nodes;
      if !StaysBelow(i, k, b) then Err(InvalidOperation)
      else if !Held(view, SiblingPath(Leaf(i), k)) then Err(InvalidOperation)
      else Ok(Some(Lookup(view, SiblingPath(Leaf(i), k))))
  }

  /** The block that the upgrade itself is to carry. */
  function Carried(block: Option<RequestBlock>, upgrade: Option<RequestUpgrade>): Option<nat> {
    if block.Some? && !BelowUpgrade(block, upgrade) then Some(block.value.index) else None
  }

  function UpgradeSending(view: View, ps: seq<Pos>, qs: seq<Pos>, siblings: Option<seq<Node>>,
                          block: Option<RequestBlock>, upgrade: Option<RequestUpgrade>): Result<(Sending, seq<Node>)>
  {
    var st := Sending([], Carried(block, upgrade), siblings);
    if upgrade.None? then Ok((st, []))
    else Together(Send(view, st, ps), Send(view, Sending([], None, None), qs))
  }

  /** What the walks over the upgrade and over what lies behind it give together. */
  function Together(sent: Result<Sending>, extra: Result<Sending>): Result<(Sending, seq<Node>)> {
    if sent.Err? then Err(sent.error) else if extra.Err? then Err(extra.error) else Ok((sent.value, extra.value.sent))
  }

  function Assemble(fork: nat, signature: Option<Signature>, block: Option<RequestBlock>,
                    upgrade: Option<RequestUpgrade>, st: Sending, additional: seq<Node>): Result<ValuelessProof>
  {
    if (block.Some? && st.nodes.None?) || (upgrade.Some? && signature.None?) then Err(Panic)
    else
      Ok(ValuelessProof(
           fork,
           if block.Some? then Some(DataHash(Leaf(block.value.index), st.nodes.value)) else None,
           if upgrade.Some?
           then Some(DataUpgrade(upgrade.value.start, upgrade.value.length, st.sent, additional, signature)) else None))
  }

  method CreateValuelessProof(view: View, n: nat, fork: nat, signature: Option<Signature>,
                              block: Option<RequestBlock>, upgrade: Option<RequestUpgrade>)
    returns (r: Result<ValuelessProof>)
    ensures r == ProofSpec(view, n, fork, signature, block, upgrade)
  {
    var m, b := 0, n;
    if upgrade.Some? {
      m, b := upgrade.value.start, upgrade.value.start + upgrade.value.length;
    }
    if m >= b || b > n {
      return Err(InvalidOperation);
    }
    var st := Sending([], None, None);
    if block.Some? {
      var i := block.value.index;
      if upgrade.None? || i < upgrade.value.start {
        UpParent(Leaf(i), block.value.nodes);
        var subTree := NodesToRoot(i, block.value.nodes, b);
        if subTree.Err? {
          return Err(InvalidOperation);
        }
        var siblings := BlockProof(view, i, subTree.value);
        if siblings.Err? {
          return Err(InvalidOperation);
        }
        st := st.(nodes := Some(siblings.value));
      } else {
        st := st.(want := Some(i));
      }
    }
    assert BlockSiblings(view, b, block, upgrade) == Ok(st.nodes);
    ghost var siblings := st.nodes;
    var additional: seq<Node> := [];
    if upgrade.Some? {
      var sent := UpgradeProof(view, st, m, b);
      if sent.Err? {
        return Err(sent.error);
      }
      st := sent.value;
      if n > b {
        var extra := UpgradeProof(view, Sending([], None, None), b, n);
        if extra.Err? {
          return Err(extra.error);
        }
        additional := extra.value.sent;
      } else {
        assert Path(b, n) == [];
      }
    }
    assert UpgradeSending(view, UpgradePath(upgrade), PathBehind(n, upgrade), siblings, block, upgrade)
           == Ok((st, additional));
    return Assemble(fork, signature, block, upgrade, st, additional);
  }
}
