/**
 Verification of proofs (src/tree/merkle_tree.rs, verify_tree and verify_upgrade).
 Each loop is given as a function; the methods that run the loops are in Verifier.dfy.
 */
module Verify {
  import opened Common
  import opened FlatTree
  import opened Hashes
  import opened Changesets

  datatype DataBlock = DataBlock(index: nat, value: Block, nodes: seq<Node>)
  datatype DataHash = DataHash(pos: Pos, nodes: seq<Node>)
  datatype DataSeek = DataSeek(bytes: nat, nodes: seq<Node>)
  /** `signature` is `None` when the received bytes are not a signature. */
  datatype DataUpgrade = DataUpgrade(start: nat, length: nat, nodes: seq<Node>,
                                     additionalNodes: seq<Node>, signature: Option<Signature>)
  datatype Proof = Proof(fork: nat, block: Option<DataBlock>, hash: Option<DataHash>,
                         seek: Option<DataSeek>, upgrade: Option<DataUpgrade>)

  // ---------------------------------------------------------------- node queue

  /** Nodes still to be handed out, and the extra node handed out when its position is asked for. */
  datatype Queue = Queue(rest: seq<Node>, extra: Option<Node>)

  function Size(q: Queue): nat {
    |q.rest| + if q.extra.Some? then 1 else 0
  }

  function Shift(q: Queue, p: Pos): (r: Result<(Node, Queue)>)
    ensures r.Ok? ==> r.value.0.pos == p && Size(r.value.1) == Size(q) - 1
  {
    if q.extra.Some? && q.extra.value.pos == p then Ok((q.extra.value, Queue(q.rest, None)))
    else if q.rest == [] || q.rest[0].pos != p then Err(InvalidOperation)
    else Ok((q.rest[0], Queue(q.rest[1..], q.extra)))
  }

  // ---------------------------------------------------------------- verify_tree

  /** Hash upwards from `cur`, taking each sibling from the queue until it is empty. */
  function Climb(q: Queue, cur: Node, acc: seq<Node>): Result<(Node, seq<Node>)>
    decreases Size(q)
  {
    if Size(q) == 0 then Ok((cur, acc))
    else match Shift(q, Sibling(cur.pos))
      case Err(e) => Err(e)
      case Ok((node, q')) =>
        var parent := ParentNode(Parent(cur.pos), cur, node);
        Climb(q', parent, acc + [node, parent])
  }

  /** Start a climb at `p`, from the given value or else from a node of the queue. */
  function ClimbFrom(q: Queue, p: Pos, value: Option<Block>, acc: seq<Node>): Result<(Node, seq<Node>)> {
    if value.Some? then
      var node := BlockNode(p, value.value);
      Climb(q, node, acc + [node])
    else match Shift(q, p)
      case Err(e) => Err(e)
      case Ok((node, q')) => Climb(q', node, acc + [node])
  }

  datatype Untrusted = Untrusted(value: Option<Block>, pos: Pos, nodes: seq<Node>)

  function NormalizeData(block: Option<DataBlock>, hash: Option<DataHash>): Option<Untrusted> {
    if block.Some? then Some(Untrusted(Some(block.value.value), Leaf(block.value.index), block.value.nodes))
    else if hash.Some? then Some(Untrusted(None, hash.value.pos, hash.value.nodes))
    else None
  }

  function SeekRoot(seek: Option<DataSeek>): Result<(Option<Node>, seq<Node>)> {
    if seek.None? || seek.value.nodes == [] then Ok((None, []))
    else match ClimbFrom(Queue(seek.value.nodes, None), seek.value.nodes[0].pos, None, [])
      case Err(e) => Err(e)
      case Ok((root, nodes)) => Ok((Some(root), nodes))
  }

  /** The root the received nodes hash to, if there are any, and every node met on the way. */
  function VerifyTreeSpec(block: Option<DataBlock>, hash: Option<DataHash>, seek: Option<DataSeek>)
    : Result<(Option<Node>, seq<Node>)>
  {
    match SeekRoot(seek)
    case Err(e) => Err(e)
    case Ok((seekRoot, acc)) =>
      var untrusted := NormalizeData(block, hash);
      if untrusted.None? then Ok((seekRoot, acc))
      else
        var u := untrusted.value;
        match ClimbFrom(Queue(u.nodes, seekRoot), u.pos, u.value, acc)
        case Err(e) => Err(e)
        case Ok((root, nodes)) => Ok((Some(root), nodes))
  }

  // ---------------------------------------------------------------- verify_upgrade

  /** Attach siblings of the last root until the iterator reaches `target`. */
  function Grow(d: Draft, q: Queue, it: Pos, target: Pos): Result<(Draft, Queue)>
    decreases Size(q)
  {
    if it == target then Ok((d, q))
    else match Shift(q, Sibling(it))
      case Err(e) => Err(e)
      case Ok((node, q')) =>
        var (d', it') := AppendRootSpec(d, node);
        Grow(d', q', it', target)
  }

  /** Walk the full roots of the new length from block `s` on. */
  function UpgradeRoots(d: Draft, q: Queue, i: nat, grow: bool, s: nat, b: nat): Result<(Draft, Queue)>
    decreases b - s
  {
    if s >= b then Ok((d, q))
    else
      var r := FullRoot(s, b);
      if i < |d.roots| && d.roots[i].pos == r then UpgradeRoots(d, q, i + 1, grow, Hi(r), b)
      else if grow && i < |d.roots| then
        match Grow(d, q, Last(d.roots).pos, r)
        case Err(e) => Err(e)
        case Ok((d', q')) => UpgradeRoots(d', q', i, false, Hi(r), b)
      else
        match Shift(q, r)
        case Err(e) => Err(e)
        case Ok((node, q')) =>
          var (d', it') := AppendRootSpec(d, node);
          UpgradeRoots(d', q', i, false, Hi(it'), b)
  }

  /** Additional nodes that are siblings of the last root; then the iterator steps aside. */
  function ExtraUp(d: Draft, extra: seq<Node>, it: Pos): (Draft, seq<Node>, Pos)
    decreases |extra|
  {
    if extra == [] then (d, [], it)
    else if extra[0].pos != Sibling(it) then (d, extra, Sibling(it))
    else
      var (d', it') := AppendRootSpec(d, extra[0]);
      ExtraUp(d', extra[1..], it')
  }

  /** Going to left children from `p` reaches `target`. */
  predicate DescendsTo(p: Pos, target: Pos)
    decreases p.depth
  {
    p == target || (p.depth > 0 && DescendsTo(LeftChild(p), target))
  }

  /** Additional nodes found at left descendants of the last root's sibling. */
  function ExtraDown(d: Draft, extra: seq<Node>, it: Pos): Result<Draft>
    decreases |extra|
  {
    if extra == [] then Ok(d)
    else if !DescendsTo(it, extra[0].pos) then Err(InvalidOperation)
    else
      var (d', it') := AppendRootSpec(d, extra[0]);
      ExtraDown(d', extra[1..], Sibling(it'))
  }

  /** Attach the additional nodes after the new roots. */
  function Additional(d: Draft, extra: seq<Node>): Result<Draft> {
    if d.roots == [] then Err(Panic)
    else
      var (d', rest, it) := ExtraUp(d, extra, Last(d.roots).pos);
      ExtraDown(d', rest, it)
  }

  /** All full roots of the new length, shared, grown or new. */
  function RootsPhase(d: Draft, q: Queue, b: nat): Result<(Draft, Queue)> {
    UpgradeRoots(d, q, 0, d.roots != [], 0, b)
  }

  /** All of verify_upgrade up to the signature check. */
  function UpgradeSpec(d: Draft, u: DataUpgrade, blockRoot: Option<Node>): Result<(Draft, Queue)> {
    match RootsPhase(d, Queue(u.nodes, blockRoot), u.start + u.length)
    case Err(e) => Err(e)
    case Ok((d', q)) =>
      match Additional(d', u.additionalNodes)
      case Err(e) => Err(e)
      case Ok(d'') => Ok((d'', q))
  }

  // ---------------------------------------------------------------- soundness

  /**
   If the roots of `d'` have the writer's hashes, so do the roots of `d` and all
   nodes since. Moreover the draft is marked as upgraded if anything was
   attached, and its byte length keeps pace with its roots.
   */
  ghost predicate Vouches(log: seq<Block>, d: Draft, d': Draft) {
    && |d.nodes| <= |d'.nodes| && d'.nodes[..|d.nodes|] == d.nodes
    && (d'.upgraded || d' == d) && (d.upgraded ==> d'.upgraded) && d.length <= d'.length
    && d'.byteLength - TotalLength(d'.roots) == d.byteLength - TotalLength(d.roots)
    && (AllGood(log, d'.roots) ==> AllGood(log, d.roots) && AllGood(log, d'.nodes[|d.nodes|..]))
  }

  /** ... and so does the extra node, once it has been taken from the queue. */
  ghost predicate VouchesExtra(log: seq<Block>, q: Queue, d': Draft, q': Queue) {
    q.extra.Some? ==> q'.extra == q.extra || (q'.extra.None? && (AllGood(log, d'.roots) ==> Good(log, q.extra.value)))
  }

  lemma {:induction false} VouchesTransitive(log: seq<Block>, a: Draft, b: Draft, c: Draft)
    requires Vouches(log, a, b) && Vouches(log, b, c)
    ensures Vouches(log, a, c)
  {
    assert c.nodes[|a.nodes|..] == b.nodes[|a.nodes|..] + c.nodes[|b.nodes|..];
  }

  lemma {:induction false} AppendRootVouches(log: seq<Block>, d: Draft, node: Node)
    ensures Vouches(log, d, AppendRootSpec(d, node).0)
    ensures AllGood(log, AppendRootSpec(d, node).0.roots) ==> Good(log, node)
  {
    AppendRootGood(log, d, node);
    AppendRootTotal(d, node);
  }

  lemma {:induction false} ShiftVouches(log: seq<Block>, d: Draft, q: Queue, p: Pos)
    requires Shift(q, p).Ok?
    ensures var (node, q') := Shift(q, p).value;
            var d' := AppendRootSpec(d, node).0;
            Vouches(log, d, d') && VouchesExtra(log, q, d', q')
  {
    AppendRootVouches(log, d, Shift(q, p).value.0);
  }

  lemma {:induction false} VouchesChain(log: seq<Block>, d: Draft, q: Queue, d1: Draft, q1: Queue, d2: Draft, q2: Queue)
    requires Vouches(log, d, d1) && VouchesExtra(log, q, d1, q1)
    requires Vouches(log, d1, d2) && VouchesExtra(log, q1, d2, q2)
    requires q.extra.None? ==> q1.extra.None?
    requires q1.extra.None? ==> q2.extra.None?
    ensures Vouches(log, d, d2) && VouchesExtra(log, q, d2, q2)
  {
    VouchesTransitive(log, d, d1, d2);
  }

  lemma {:induction false} GrowVouches(log: seq<Block>, d: Draft, q: Queue, it: Pos, target: Pos)
    requires Grow(d, q, it, target).Ok?
    ensures var (d', q') := Grow(d, q, it, target).value;
            Vouches(log, d, d') && VouchesExtra(log, q, d', q') && (q.extra.None? ==> q'.extra.None?)
    decreases Size(q)
  {
    if it != target {
      var (node, q') := Shift(q, Sibling(it)).value;
      var (d', it') := AppendRootSpec(d, node);
      ShiftVouches(log, d, q, Sibling(it));
      GrowVouches(log, d', q', it', target);
      var (d2, q2) := Grow(d, q, it, target).value;
      VouchesChain(log, d, q, d', q', d2, q2);
    }
  }

  lemma {:induction false} UpgradeRootsVouches(log: seq<Block>, d: Draft, q: Queue, i: nat, grow: bool, s: nat, b: nat)
    requires UpgradeRoots(d, q, i, grow, s, b).Ok?
    ensures var (d', q') := UpgradeRoots(d, q, i, grow, s, b).value;
            Vouches(log, d, d') && VouchesExtra(log, q, d', q') && (q.extra.None? ==> q'.extra.None?)
    decreases b - s
  {
    if s < b {
      var r := FullRoot(s, b);
      var (d2, q2) := UpgradeRoots(d, q, i, grow, s, b).value;
      if i < |d.roots| && d.roots[i].pos == r {
        UpgradeRootsVouches(log, d, q, i + 1, grow, Hi(r), b);
      } else if grow && i < |d.roots| {
        var (d', q') := Grow(d, q, Last(d.roots).pos, r).value;
        GrowVouches(log, d, q, Last(d.roots).pos, r);
        UpgradeRootsVouches(log, d', q', i, false, Hi(r), b);
        VouchesChain(log, d, q, d', q', d2, q2);
      } else {
        var (node, q') := Shift(q, r).value;
        var (d', it') := AppendRootSpec(d, node);
        ShiftVouches(log, d, q, r);
        UpgradeRootsVouches(log, d', q', i, false, Hi(it'), b);
        VouchesChain(log, d, q, d', q', d2, q2);
      }
    }
  }

  lemma {:induction false} ExtraUpVouches(log: seq<Block>, d: Draft, extra: seq<Node>, it: Pos)
    ensures Vouches(log, d, ExtraUp(d, extra, it).0)
    decreases |extra|
  {
    if extra != [] && extra[0].pos == Sibling(it) {
      var (d', it') := AppendRootSpec(d, extra[0]);
      AppendRootVouches(log, d, extra[0]);
      ExtraUpVouches(log, d', extra[1..], it');
      VouchesTransitive(log, d, d', ExtraUp(d, extra, it).0);
    }
  }

  lemma {:induction false} ExtraDownVouches(log: seq<Block>, d: Draft, extra: seq<Node>, it: Pos)
    requires ExtraDown(d, extra, it).Ok?
    ensures Vouches(log, d, ExtraDown(d, extra, it).value)
    decreases |extra|
  {
    if extra != [] {
      var (d', it') := AppendRootSpec(d, extra[0]);
      AppendRootVouches(log, d, extra[0]);
      ExtraDownVouches(log, d', extra[1..], Sibling(it'));
      VouchesTransitive(log, d, d', ExtraDown(d, extra, it).value);
    }
  }

  lemma {:induction false} AdditionalVouches(log: seq<Block>, d: Draft, extra: seq<Node>)
    requires Additional(d, extra).Ok?
    ensures Vouches(log, d, Additional(d, extra).value)
  {
    var it := Last(d.roots).pos;
    var (d', rest, it') := ExtraUp(d, extra, it);
    ExtraUpVouches(log, d, extra, it);
    ExtraDownVouches(log, d', rest, it');
    VouchesTransitive(log, d, d', ExtraDown(d', rest, it').value);
  }

  /** Whatever nodes an upgrade carries, its final roots vouch for all of them and for a consumed block root. */
  lemma {:induction false} UpgradeVouches(log: seq<Block>, d: Draft, u: DataUpgrade, blockRoot: Option<Node>)
    requires UpgradeSpec(d, u, blockRoot).Ok?
    ensures var (d', q) := UpgradeSpec(d, u, blockRoot).value;
            Vouches(log, d, d') && VouchesExtra(log, Queue(u.nodes, blockRoot), d', q)
            && (q.extra.None? || q.extra == blockRoot)
  {
    var q0 := Queue(u.nodes, blockRoot);
    var d1 := RootsPhase(d, q0, u.start + u.length).value.0;
    UpgradeRootsVouches(log, d, q0, 0, d.roots != [], 0, u.start + u.length);
    AdditionalVouches(log, d1, u.additionalNodes);
    VouchesTransitive(log, d, d1, Additional(d1, u.additionalNodes).value);
  }

  /** A root with the writer's hash vouches for every node that was hashed into it. */
  lemma {:induction false} ClimbGood(log: seq<Block>, q: Queue, cur: Node, acc: seq<Node>)
    requires Climb(q, cur, acc).Ok?
    ensures var (root, nodes) := Climb(q, cur, acc).value;
            && acc <= nodes
            && (Good(log, root) ==>
                  Good(log, cur) && AllGood(log, nodes[|acc|..]) && (q.extra.Some? ==> Good(log, q.extra.value)))
    decreases Size(q)
  {
    if Size(q) != 0 {
      var (node, q') := Shift(q, Sibling(cur.pos)).value;
      var parent := ParentNode(Parent(cur.pos), cur, node);
      var acc' := acc + [node, parent];
      ClimbGood(log, q', parent, acc');
      var (root, nodes) := Climb(q, cur, acc).value;
      if Good(log, root) {
        GoodChildren(log, cur, node);
        assert nodes[|acc|..] == [node, parent] + nodes[|acc'|..];
      }
    }
  }

  lemma {:induction false} ClimbFromGood(log: seq<Block>, q: Queue, p: Pos, value: Option<Block>, acc: seq<Node>)
    requires ClimbFrom(q, p, value, acc).Ok?
    ensures var (root, nodes) := ClimbFrom(q, p, value, acc).value;
            && acc <= nodes
            && (Good(log, root) ==>
                  AllGood(log, nodes[|acc|..]) && (q.extra.Some? ==> Good(log, q.extra.value))
                  && (value.Some? ==> Good(log, BlockNode(p, value.value))))
  {
    var (root, nodes) := ClimbFrom(q, p, value, acc).value;
    var (node, q') := if value.Some? then (BlockNode(p, value.value), q) else Shift(q, p).value;
    ClimbGood(log, q', node, acc + [node]);
    assert nodes[|acc|..] == [node] + nodes[|acc| + 1..];
  }

  /** If the root that the received data hashes to is the writer's, then so is all of the data. */
  lemma {:induction false} VerifyTreeGood(log: seq<Block>, block: Option<DataBlock>, hash: Option<DataHash>,
                                          seek: Option<DataSeek>)
    requires VerifyTreeSpec(block, hash, seek).Ok?
    ensures var (root, nodes) := VerifyTreeSpec(block, hash, seek).value;
            && (root.None? ==> nodes == [] && block.None?)
            && (root.Some? && Good(log, root.value) ==>
                  AllGood(log, nodes)
                  && (block.Some? ==> block.value.index < |log| && log[block.value.index] == block.value.value))
  {
    var (seekRoot, acc) := SeekRoot(seek).value;
    if seekRoot.Some? {
      ClimbFromGood(log, Queue(seek.value.nodes, None), seek.value.nodes[0].pos, None, []);
      assert acc[0..] == acc;
    }
    var untrusted := NormalizeData(block, hash);
    if untrusted.Some? {
      var u := untrusted.value;
      ClimbFromGood(log, Queue(u.nodes, seekRoot), u.pos, u.value, acc);
      var (root, nodes) := VerifyTreeSpec(block, hash, seek).value;
      assert nodes == acc + nodes[|acc|..];
    }
  }

  // ---------------------------------------------------------------- verify_proof and commit

  /** A Merkle tree as its callers see it: `view` is the node found at each position. */
  datatype Tree = Tree(length: nat, byteLength: nat, fork: nat, roots: seq<Node>, view: map<Pos, Node>)

  /** An unverified root must be the node already known at its position. */
  function CheckKnown(view: map<Pos, Node>, pending: Option<Node>): Result<()> {
    if pending.None? then Ok(())
    else if pending.value.pos !in view then Err(InvalidOperation)
    else if view[pending.value.pos].hash != pending.value.hash then Err(InvalidChecksum)
    else Ok(())
  }

  /** `verify_proof`: the changeset of an accepted proof. */
  function VerifyProofSpec(t: Tree, proof: Proof, signed: set<Signable>): Result<Draft> {
    match VerifyTreeSpec(proof.block, proof.hash, proof.seek)
    case Err(e) => Err(e)
    case Ok((root, nodes)) =>
      var d := Draft(t.length, t.byteLength, false, t.roots, nodes);
      if proof.upgrade.None? then
        match CheckKnown(t.view, root)
        case Err(e) => Err(e)
        case Ok(_) => Ok(d)
      else
        match UpgradeSpec(d, proof.upgrade.value, root)
        case Err(e) => Err(e)
        case Ok((d', q)) =>
          var signature := proof.upgrade.value.signature;
          if signature.None? || !Verifies(signed, SignableOf(d'.roots, d'.length, proof.fork), signature.value)
          then Err(InvalidSignature)
          else
            match CheckKnown(t.view, if q.extra.None? then None else root)
            case Err(e) => Err(e)
            case Ok(_) => Ok(d')
  }

  function AddNodes(view: map<Pos, Node>, nodes: seq<Node>): map<Pos, Node> {
    if nodes == [] then view else AddNodes(view, nodes[..|nodes| - 1])[nodes[|nodes| - 1].pos := nodes[|nodes| - 1]]
  }

  /** `commit`: the changeset's roots replace the tree's if it was upgraded, its nodes are added. */
  function CommitSpec(t: Tree, d: Draft, fork: nat): Tree {
    if d.upgraded then Tree(d.length, d.byteLength, fork, d.roots, AddNodes(t.view, d.nodes))
    else t.(view := AddNodes(t.view, d.nodes))
  }

  // ---------------------------------------------------------------- nothing is passed over

  /** All these nodes are among `nodes`. */
  ghost predicate Among(xs: seq<Node>, nodes: seq<Node>) {
    forall x :: x in xs ==> x in nodes
  }

  /** A climb that succeeds has used every node it was given, and met two for each level. */
  lemma {:induction false} ClimbUses(q: Queue, cur: Node, acc: seq<Node>)
    requires Climb(q, cur, acc).Ok?
    ensures var (root, nodes) := Climb(q, cur, acc).value;
            && Among(acc, nodes) && Among(q.rest, nodes) && (q.extra.Some? ==> q.extra.value in nodes)
            && |nodes| == |acc| + 2 * Size(q) && root.pos.depth == cur.pos.depth + Size(q)
    decreases Size(q)
  {
    if Size(q) > 0 {
      var (node, q') := Shift(q, Sibling(cur.pos)).value;
      var parent := ParentNode(Parent(cur.pos), cur, node);
      ClimbUses(q', parent, acc + [node, parent]);
      TakenOrLeft(q, Sibling(cur.pos));
      assert node in acc + [node, parent];
    }
  }

  lemma {:induction false} TakenOrLeft(q: Queue, p: Pos)
    requires Shift(q, p).Ok?
    ensures var (node, q') := Shift(q, p).value;
            && (forall x :: x in q.rest ==> x == node || x in q'.rest)
            && (q.extra.Some? ==> q.extra.value == node || q'.extra == q.extra)
  {
  }

  lemma {:induction false} ClimbFromUses(q: Queue, p: Pos, value: Option<Block>, acc: seq<Node>)
    requires ClimbFrom(q, p, value, acc).Ok?
    ensures var nodes := ClimbFrom(q, p, value, acc).value.1;
            && Among(acc, nodes) && Among(q.rest, nodes) && (q.extra.Some? ==> q.extra.value in nodes)
            && (value.Some? ==> BlockNode(p, value.value) in nodes)
  {
    if value.Some? {
      ClimbUses(q, BlockNode(p, value.value), acc + [BlockNode(p, value.value)]);
    } else {
      var (node, q') := Shift(q, p).value;
      TakenOrLeft(q, p);
      ClimbUses(q', node, acc + [node]);
      assert node in acc + [node];
    }
  }

  /** No node of a block, hash or seek is passed over, and no seek root is left unconnected to a block or hash. */
  lemma {:induction false} VerifyTreeUses(block: Option<DataBlock>, hash: Option<DataHash>, seek: Option<DataSeek>)
    requires VerifyTreeSpec(block, hash, seek).Ok?
    ensures var nodes := VerifyTreeSpec(block, hash, seek).value.1;
            && (seek.Some? ==> Among(seek.value.nodes, nodes))
            && (block.Some? ==> Among(block.value.nodes, nodes) && BlockNode(Leaf(block.value.index), block.value.value) in nodes)
            && (block.None? && hash.Some? ==> Among(hash.value.nodes, nodes))
  {
    if seek.Some? && seek.value.nodes != [] {
      ClimbFromUses(Queue(seek.value.nodes, None), seek.value.nodes[0].pos, None, []);
    }
    var (seekRoot, acc) := SeekRoot(seek).value;
    var untrusted := NormalizeData(block, hash);
    if untrusted.Some? {
      ClimbFromUses(Queue(untrusted.value.nodes, seekRoot), untrusted.value.pos, untrusted.value.value, acc);
    }
  }

  lemma {:induction false} ExtraUpUses(d: Draft, extra: seq<Node>, it: Pos)
    ensures var (d', rest, it') := ExtraUp(d, extra, it);
            Among(d.nodes, d'.nodes) && forall x :: x in extra ==> x in d'.nodes || x in rest
    decreases |extra|
  {
    if extra != [] && extra[0].pos == Sibling(it) {
      var (d', it') := AppendRootSpec(d, extra[0]);
      assert extra[0] in d'.nodes;
      ExtraUpUses(d', extra[1..], it');
    }
  }

  lemma {:induction false} ExtraDownUses(d: Draft, extra: seq<Node>, it: Pos)
    requires ExtraDown(d, extra, it).Ok?
    ensures Among(d.nodes, ExtraDown(d, extra, it).value.nodes) && Among(extra, ExtraDown(d, extra, it).value.nodes)
    decreases |extra|
  {
    if extra != [] {
      var (d', it') := AppendRootSpec(d, extra[0]);
      assert extra[0] in d'.nodes;
      ExtraDownUses(d', extra[1..], Sibling(it'));
    }
  }

  /** No additional node is passed over, and an upgrade that leads to no roots makes the verifier panic. */
  lemma {:induction false} AdditionalUses(d: Draft, extra: seq<Node>)
    ensures d.roots == [] ==> Additional(d, extra) == Err(Panic)
    ensures Additional(d, extra).Ok? ==>
              Among(d.nodes, Additional(d, extra).value.nodes) && Among(extra, Additional(d, extra).value.nodes)
  {
    if Additional(d, extra).Ok? {
      ExtraUpUses(d, extra, Last(d.roots).pos);
      var (d', rest, it) := ExtraUp(d, extra, Last(d.roots).pos);
      ExtraDownUses(d', rest, it);
    }
  }

  /** Every node of an accepted proof but those of the upgrade beyond the ones it needs goes into the changeset. */
  lemma {:induction false} AcceptedUsesAll(log: seq<Block>, t: Tree, proof: Proof, signed: set<Signable>)
    requires VerifyProofSpec(t, proof, signed).Ok?
    ensures var nodes := VerifyProofSpec(t, proof, signed).value.nodes;
            && (proof.seek.Some? ==> Among(proof.seek.value.nodes, nodes))
            && (proof.block.Some? ==>
                  && Among(proof.block.value.nodes, nodes)
                  && BlockNode(Leaf(proof.block.value.index), proof.block.value.value) in nodes)
            && (proof.block.None? && proof.hash.Some? ==> Among(proof.hash.value.nodes, nodes))
            && (proof.upgrade.Some? ==> Among(proof.upgrade.value.additionalNodes, nodes))
  {
    VerifyTreeUses(proof.block, proof.hash, proof.seek);
    var (root, nodes) := VerifyTreeSpec(proof.block, proof.hash, proof.seek).value;
    if proof.upgrade.Some? {
      var d := Draft(t.length, t.byteLength, false, t.roots, nodes);
      var u := proof.upgrade.value;
      UpgradeVouches(log, d, u, root);
      var (d1, q) := RootsPhase(d, Queue(u.nodes, root), u.start + u.length).value;
      AdditionalUses(d1, u.additionalNodes);
      var d2 := UpgradeSpec(d, u, root).value.0;
      assert d2.nodes[..|d.nodes|] == d.nodes;
      assert forall x :: x in d.nodes ==> x in d2.nodes;
    }
  }

  lemma {:induction false} AddNodesView(view: map<Pos, Node>, nodes: seq<Node>)
    ensures AddNodes(view, nodes).Keys == view.Keys + Positions(nodes)
    ensures forall p :: p in AddNodes(view, nodes) ==>
              (p in view && AddNodes(view, nodes)[p] == view[p])
              || (AddNodes(view, nodes)[p] in nodes && AddNodes(view, nodes)[p].pos == p)
  {
    if nodes == [] {
      assert Positions(nodes) == {};
    } else {
      var front, last := nodes[..|nodes| - 1], nodes[|nodes| - 1];
      AddNodesView(view, front);
      assert nodes == front + [last];
      PositionsConcat(front, [last]);
      assert Positions([last]) == {last.pos};
    }
  }
}
