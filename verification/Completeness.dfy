/**
 Proof completeness: whatever an honest replica asks of the writer for a block
 and an upgrade, the proof the writer creates is accepted, and committing it
 gives an honest replica that has the block and the writer's length.
 */
module Completeness {
  import opened Common
  import opened FlatTree
  import opened Hashes
  import opened Changesets
  import opened Verify
  import opened VerifyHonest
  import opened Prover
  import opened Soundness

  /** A trusted tree whose known nodes are exactly the writer's, byte lengths included. */
  ghost predicate Honest(log: seq<Block>, t: Tree) {
    Trusted(log, t) && ExactNodes(log, t.view)
  }

  // ---------------------------------------------------------------- missing_nodes

  /** `k` is the number of climbs from `p` to the first known node. */
  ghost predicate Missing(view: View, p: Pos, k: nat) {
    Up(p, k) in view && forall j :: 0 <= j < k ==> Up(p, j) !in view
  }

  /** A position inside the tree lies under a root. */
  lemma {:induction false} UnderRoot(n: nat, p: Pos) returns (j: nat)
    requires Hi(p) <= n
    ensures j < |Roots(n)| && Within(p, Roots(n)[j]) && Hi(Roots(n)[j]) <= n
  {
    ParentSpan(p);
    j := RootOver(n, Lo(p));
    var r := Roots(n)[j];
    RootsSpan(n, j);
    if r.depth < p.depth {
      RootsMaximal(n, j);
      SharedLeafNests(r, p, Lo(p));
      WithinSpan(r, p);
      WithinSpan(Parent(r), p);
      assert false;
    }
    SharedLeafNests(p, r, Lo(p));
  }

  /** A climb that has not passed an ancestor inside the tree is inside the tree. */
  lemma {:induction false} ClimbBelow(p: Pos, r: Pos, k: nat)
    requires Within(p, r) && k <= r.depth - p.depth
    ensures Hi(Up(p, k)) <= Hi(r)
  {
    UpParent(p, k);
    UpUp(p, k, r.depth - p.depth - k);
    WithinSpan(Up(p, k), r);
  }

  /** Known roots are found before the climb leaves the tree. */
  lemma {:induction false} ClimbMeetsKnown(log: seq<Block>, t: Tree, p: Pos, k: nat)
    requires Trusted(log, t) && Hi(p) <= t.length && (forall j :: 0 <= j < k ==> Up(p, j) !in t.view)
    ensures !HasLeaf(Up(p, k), t.length)
    ensures Hi(Up(p, k)) <= t.length
  {
    var j := UnderRoot(t.length, p);
    RootIsKnown(log, t, j);
    NotPassed(t.view, p, Roots(t.length)[j], k);
    ClimbBelow(p, Roots(t.length)[j], k);
  }

  lemma {:induction false} NotPassed(view: View, p: Pos, r: Pos, k: nat)
    requires Within(p, r) && r in view && forall j :: 0 <= j < k ==> Up(p, j) !in view
    ensures k <= r.depth - p.depth
  {
    assert r == Up(p, r.depth - p.depth);
  }

  lemma {:induction false} RootIsKnown(log: seq<Block>, t: Tree, j: nat)
    requires Trusted(log, t) && j < |Roots(t.length)|
    ensures Roots(t.length)[j] in t.view
  {
    assert t.roots[j].pos == Roots(t.length)[j] && t.roots[j] in t.roots;
  }

  lemma {:induction false} RootFrom(n: nat, i: nat, j: nat) returns (k: nat)
    requires j <= |Roots(n)| && Boundary(n, j) <= i < n
    ensures k < |Roots(n)| && HasLeaf(Roots(n)[k], i)
    decreases |Roots(n)| - j
  {
    RootsAdjacent(n, j);
    if i < Hi(Roots(n)[j]) {
      k := j;
    } else {
      k := RootFrom(n, i, j + 1);
    }
  }

  lemma {:induction false} RootOver(n: nat, i: nat) returns (k: nat)
    requires i < n
    ensures k < |Roots(n)| && HasLeaf(Roots(n)[k], i)
  {
    RootsStart(n);
    k := RootFrom(n, i, 0);
  }

  /** `missing_nodes`: the least number of climbs to a known node, 0 outside the tree. */
  method MissingNodes(t: Tree, p: Pos, ghost log: seq<Block>) returns (count: nat)
    requires Trusted(log, t)
    ensures Hi(p) > t.length ==> count == 0
    ensures Hi(p) <= t.length ==> Missing(t.view, p, count) && Hi(Up(p, count)) <= t.length
  {
    var it := p;
    IteratorSpan(it);
    count := 0;
    if Index(it) + HalfFactor(it) - 1 >= 2 * t.length {
      return;
    }
    ClimbMeetsKnown(log, t, p, 0);
    while !Contains(it, 2 * t.length)
      invariant it == Up(p, count)
      invariant Hi(it) <= t.length && !HasLeaf(it, t.length)
      invariant forall j :: 0 <= j < count ==> Up(p, j) !in t.view
      decreases t.length + Lo(it) - Hi(it)
    {
      if it in t.view {
        return;
      }
      ClimbMeetsKnown(log, t, p, count + 1);
      UpParent(p, count);
      ParentSpan(it);
      count := count + 1;
      it := Parent(it);
    }
  }

  // ---------------------------------------------------------------- what the writer's prover sends

  /** Positions whose nodes are sent when the subtree holding block `want` is proved by the block instead. */
  function Pushed(ps: seq<Pos>, want: Option<nat>): seq<Pos> {
    if ps == [] then []
    else if want.Some? && HasLeaf(ps[0], want.value) then Pushed(ps[1..], None)
    else [ps[0]] + Pushed(ps[1..], want)
  }

  /** The first subtree that holds block `want`. */
  function Carrier(ps: seq<Pos>, want: Option<nat>): Option<Pos> {
    if ps == [] || want.None? then None
    else if HasLeaf(ps[0], want.value) then Some(ps[0])
    else Carrier(ps[1..], want)
  }

  lemma {:induction false} PushedNone(ps: seq<Pos>)
    ensures Pushed(ps, None) == ps
  {
    if ps != [] {
      PushedNone(ps[1..]);
    }
  }

  lemma {:induction false} PathInside(a: nat, b: nat, p: Pos)
    requires p in Path(a, b)
    ensures a <= Lo(p) < Hi(p) <= b
    decreases b - a
  {
    var r := FullRoot(a, b);
    if p != r {
      PathInside(Hi(r), b, p);
    }
  }

  lemma {:induction false} CarrierExists(a: nat, b: nat, i: nat)
    requires a <= i < b
    ensures var c := Carrier(Path(a, b), Some(i));
            c.Some? && c.value in Path(a, b) && HasLeaf(c.value, i)
    decreases b - a
  {
    var r := FullRoot(a, b);
    assert Path(a, b)[1..] == Path(Hi(r), b);
    if i >= Hi(r) {
      CarrierExists(Hi(r), b, i);
    }
  }

  lemma {:induction false} SiblingPathInside(p: Pos, k: nat, q: Pos)
    requires q in SiblingPath(p, k)
    ensures Hi(q) <= Hi(Up(p, k))
    decreases k
  {
    ParentSpan(p);
    UpParent(Parent(p), k - 1);
    WithinSpan(Parent(p), Up(Parent(p), k - 1));
    if q != Sibling(p) {
      SiblingPathInside(Parent(p), k - 1, q);
    }
  }

  lemma {:induction false} LookupExact(view: View, log: seq<Block>, ps: seq<Pos>)
    requires ExactNodes(log, view) && Held(view, ps)
    ensures Lookup(view, ps) == NodesAt(log, ps)
  {
    assert forall i :: 0 <= i < |ps| ==> ps[i] in ps;
  }

  lemma {:induction false} HeldConcat(view: View, a: seq<Pos>, b: seq<Pos>)
    ensures Held(view, a + b) <==> Held(view, a) && Held(view, b)
  {
    assert forall p :: p in a ==> p in a + b;
    assert forall p :: p in b ==> p in a + b;
  }

  /** What the writer sends for the positions `ps`. */
  function SentFor(log: seq<Block>, st: Sending, ps: seq<Pos>): Sending {
    var c := Carrier(ps, st.want);
    Sending(st.sent + NodesAt(log, Pushed(ps, st.want)),
            if c.Some? then None else st.want,
            if c.Some? then Some(NodesAt(log, SiblingPath(Leaf(st.want.value), c.value.depth))) else st.nodes)
  }

  /**
   The positions that must be known for that: what is sent, and the siblings of the block on the way to its carrier.
   */
  function NeededFor(ps: seq<Pos>, want: Option<nat>): seq<Pos> {
    var c := Carrier(ps, want);
    Pushed(ps, want) + if c.Some? then SiblingPath(Leaf(want.value), c.value.depth) else []
  }

  /** With exact nodes the walk succeeds if and only if they are known, and then sends the writer's nodes. */
  lemma {:induction false} SendExact(view: View, log: seq<Block>, st: Sending, ps: seq<Pos>)
    requires ExactNodes(log, view)
    ensures Send(view, st, ps)
            == if Held(view, NeededFor(ps, st.want)) then Ok(SentFor(log, st, ps)) else Err(InvalidOperation)
    decreases |ps|
  {
    if ps == [] {
      assert st.sent + NodesAt(log, []) == st.sent;
    } else if st.want.Some? && HasLeaf(ps[0], st.want.value) {
      var path := SiblingPath(Leaf(st.want.value), ps[0].depth);
      CarriedHeld(view, ps, st.want.value);
      if Held(view, path) {
        LookupExact(view, log, path);
        SendExact(view, log, Sending(st.sent, None, Some(NodesAt(log, path))), ps[1..]);
      }
    } else {
      PushedHeld(view, ps, st.want);
      if ps[0] in view {
        SendExact(view, log, st.(sent := st.sent + [NodeAt(log, ps[0])]), ps[1..]);
        PushedSent(log, st.sent, ps, st.want);
      }
    }
  }

  lemma {:induction false} CarriedHeld(view: View, ps: seq<Pos>, i: nat)
    requires ps != [] && HasLeaf(ps[0], i)
    ensures Held(view, NeededFor(ps, Some(i))) <==>
            Held(view, SiblingPath(Leaf(i), ps[0].depth)) && Held(view, NeededFor(ps[1..], None))
  {
    PushedNone(ps[1..]);
    HeldConcat(view, ps[1..], SiblingPath(Leaf(i), ps[0].depth));
    assert ps[1..] + [] == ps[1..];
  }

  lemma {:induction false} PushedHeld(view: View, ps: seq<Pos>, want: Option<nat>)
    requires ps != [] && !(want.Some? && HasLeaf(ps[0], want.value))
    ensures Held(view, NeededFor(ps, want)) <==> ps[0] in view && Held(view, NeededFor(ps[1..], want))
  {
    assert NeededFor(ps, want) == [ps[0]] + NeededFor(ps[1..], want);
    HeldConcat(view, [ps[0]], NeededFor(ps[1..], want));
    assert Held(view, [ps[0]]) <==> ps[0] in view by {
      assert [ps[0]][0] == ps[0];
    }
  }

  lemma {:induction false} PushedSent(log: seq<Block>, sent: seq<Node>, ps: seq<Pos>, want: Option<nat>)
    requires ps != [] && !(want.Some? && HasLeaf(ps[0], want.value))
    ensures sent + [NodeAt(log, ps[0])] + NodesAt(log, Pushed(ps[1..], want)) == sent + NodesAt(log, Pushed(ps, want))
  {
    var rest := Pushed(ps[1..], want);
    NodesAtConcat(log, [ps[0]], rest);
    NodesAtOne(log, ps[0]);
  }

  // ---------------------------------------------------------------- the queue finds all of it

  lemma {:induction false} SuppliesAll(log: seq<Block>, ps: seq<Pos>, extra: Option<Node>)
    requires extra.Some? ==> extra.value.pos !in ps
    ensures Supplies(log, Queue(NodesAt(log, ps), extra), ps)
    decreases |ps|
  {
    if ps != [] {
      assert ps[0] in ps;
      assert NodesAt(log, ps)[1..] == NodesAt(log, ps[1..]);
      SuppliesAll(log, ps[1..], extra);
    }
  }

  lemma {:induction false} SuppliesCarried(log: seq<Block>, ps: seq<Pos>, i: nat)
    requires Carrier(ps, Some(i)).Some?
    ensures Supplies(log, Queue(NodesAt(log, Pushed(ps, Some(i))), Some(NodeAt(log, Carrier(ps, Some(i)).value))), ps)
    ensures HasLeaf(Carrier(ps, Some(i)).value, i)
    decreases |ps|
  {
    if HasLeaf(ps[0], i) {
      PushedNone(ps[1..]);
      SuppliesAll(log, ps[1..], None);
    } else {
      SuppliesCarried(log, ps[1..], i);
      assert NodesAt(log, Pushed(ps, Some(i)))[1..] == NodesAt(log, Pushed(ps[1..], Some(i)));
    }
  }

  // ---------------------------------------------------------------- completeness

  /** A request of a replica of length `m` to a writer of length `n`. */
  ghost predicate Request(t: Tree, n: nat, block: Option<RequestBlock>, upgrade: Option<RequestUpgrade>) {
    && (block.Some? || upgrade.Some?)
    && (upgrade.Some? ==> upgrade.value.start == t.length && 0 < upgrade.value.length <= n - t.length)
    && (block.Some? ==>
          && block.value.index < t.length + (if upgrade.Some? then upgrade.value.length else 0)
          && (block.value.index < t.length ==> Missing(t.view, Leaf(block.value.index), block.value.nodes)))
  }

  /** The caller of create_valueless_proof adds the block's value. */
  function WithValue(p: ValuelessProof, value: Option<Block>): Proof
    requires p.block.Some? ==> value.Some? && p.block.value.pos.depth == 0
  {
    Proof(p.fork,
          if p.block.Some? then Some(DataBlock(p.block.value.pos.offset, value.value, p.block.value.nodes)) else None,
          None, None, p.upgrade)
  }

  function BlockIndex(block: Option<RequestBlock>): Option<nat> {
    if block.Some? then Some(block.value.index) else None
  }

  /** The block an upgrade from `m` carries itself. */
  function Wanted(i: Option<nat>, m: nat): Option<nat> {
    if i.Some? && i.value >= m then i else None
  }

  /** The node a requested block hashes up to: a known one below `m`, else one of the upgrade. */
  function BlockRoot(block: RequestBlock, m: nat, upgrade: Option<RequestUpgrade>): Pos {
    if block.index < m || upgrade.None? then Up(Leaf(block.index), block.nodes)
    else
      var c := Carrier(Path(m, m + upgrade.value.length), Some(block.index));
      if c.Some? then c.value else Leaf(block.index)
  }

  function SentBlock(log: seq<Block>, m: nat, block: RequestBlock, upgrade: Option<RequestUpgrade>): DataHash {
    DataHash(Leaf(block.index), NodesAt(log, SiblingPath(Leaf(block.index), BlockRoot(block, m, upgrade).depth)))
  }

  function SentUpgrade(log: seq<Block>, m: nat, b: nat, n: nat, i: Option<nat>, signature: Signature): DataUpgrade
    requires m <= b
  {
    DataUpgrade(m, b - m, NodesAt(log, Pushed(Path(m, b), Wanted(i, m))), NodesAt(log, Path(b, n)), Some(signature))
  }

  /** The proof the writer creates, node by node. */
  function SentProof(log: seq<Block>, m: nat, n: nat, fork: nat, signature: Signature,
                     block: Option<RequestBlock>, upgrade: Option<RequestUpgrade>): ValuelessProof
  {
    ValuelessProof(
      fork,
      if block.Some? then Some(SentBlock(log, m, block.value, upgrade)) else None,
      if upgrade.Some? then Some(SentUpgrade(log, m, m + upgrade.value.length, n, BlockIndex(block), signature)) else None)
  }

  /** A block below `m` hashes up to a known node inside the tree, one above it to a node of the upgrade. */
  ghost predicate Placed(m: nat, block: RequestBlock, upgrade: Option<RequestUpgrade>) {
    var p := BlockRoot(block, m, upgrade);
    && Within(Leaf(block.index), p)
    && (block.index < m || upgrade.None? ==> p.depth == block.nodes && Hi(p) <= m)
    && (block.index >= m && upgrade.Some? ==>
          Carrier(Path(m, m + upgrade.value.length), Some(block.index)) == Some(p)
          && p in Path(m, m + upgrade.value.length))
  }

  lemma {:induction false} RequestIsPlaced(log: seq<Block>, n: nat, t: Tree, block: RequestBlock,
                                           upgrade: Option<RequestUpgrade>)
    requires Trusted(log, t) && Request(t, n, Some(block), upgrade)
    ensures Placed(t.length, block, upgrade)
    ensures block.index < t.length ==> BlockRoot(block, t.length, upgrade) in t.view
    ensures block.index < t.length ==> forall j :: 0 <= j <= block.nodes ==> Hi(Up(Leaf(block.index), j)) <= t.length
  {
    if block.index < t.length {
      KnownIsPlaced(log, t, block, upgrade);
    } else {
      CarrierPlaced(t.length, t.length + upgrade.value.length, block.index);
    }
  }

  lemma {:induction false} KnownIsPlaced(log: seq<Block>, t: Tree, block: RequestBlock, upgrade: Option<RequestUpgrade>)
    requires Trusted(log, t) && block.index < t.length && Missing(t.view, Leaf(block.index), block.nodes)
    ensures Placed(t.length, block, upgrade) && BlockRoot(block, t.length, upgrade) in t.view
    ensures forall j :: 0 <= j <= block.nodes ==> Hi(Up(Leaf(block.index), j)) <= t.length
  {
    KnownPlaced(log, t, block.index, block.nodes);
  }

  lemma {:induction false} KnownPlaced(log: seq<Block>, t: Tree, i: nat, k: nat)
    requires Trusted(log, t) && i < t.length && Missing(t.view, Leaf(i), k)
    ensures Within(Leaf(i), Up(Leaf(i), k)) && Up(Leaf(i), k).depth == k
    ensures forall j :: 0 <= j <= k ==> Hi(Up(Leaf(i), j)) <= t.length
  {
    forall j | 0 <= j <= k
      ensures Hi(Up(Leaf(i), j)) <= t.length
    {
      ClimbMeetsKnown(log, t, Leaf(i), j);
    }
    UpParent(Leaf(i), k);
  }

  lemma {:induction false} CarrierPlaced(m: nat, b: nat, i: nat)
    requires m <= i < b
    ensures var c := Carrier(Path(m, b), Some(i));
            c.Some? && c.value in Path(m, b) && Within(Leaf(i), c.value)
  {
    CarrierExists(m, b, i);
    LeafWithin(i, Carrier(Path(m, b), Some(i)).value);
  }

  // ---------------------------------------------------------------- the prover

  /** The end of the upgrade, or of the prover's tree. */
  function UpgradeEnd(n: nat, upgrade: Option<RequestUpgrade>): nat {
    if upgrade.Some? then upgrade.value.start + upgrade.value.length else n
  }

  /** Positions of the siblings of a block that lies below the upgrade. */
  function EarlyNeeds(block: Option<RequestBlock>, upgrade: Option<RequestUpgrade>): seq<Pos> {
    if BelowUpgrade(block, upgrade) then SiblingPath(Leaf(block.value.index), block.value.nodes) else []
  }

  /** What an answer over the subtrees `ps` and `qs` needs: siblings inside the tree, and every position it carries. */
  ghost predicate AnswerableOver(view: View, b: nat, ps: seq<Pos>, qs: seq<Pos>, block: Option<RequestBlock>,
                                 upgrade: Option<RequestUpgrade>) {
    && (BelowUpgrade(block, upgrade) ==> StaysBelow(block.value.index, block.value.nodes, b))
    && Held(view, EarlyNeeds(block, upgrade))
    && (upgrade.Some? ==> Held(view, NeededFor(ps, Carried(block, upgrade)) + qs))
  }

  /** What a prover of `n` blocks must know for an answer. */
  ghost predicate Answerable(view: View, n: nat, block: Option<RequestBlock>, upgrade: Option<RequestUpgrade>) {
    0 < n && AnswerableOver(view, UpgradeEnd(n, upgrade), UpgradePath(upgrade), PathBehind(n, upgrade), block, upgrade)
  }

  /** How far up the block's siblings go. */
  function SiblingLevels(ps: seq<Pos>, block: RequestBlock, upgrade: Option<RequestUpgrade>): nat {
    var c := Carrier(ps, Some(block.index));
    if BelowUpgrade(Some(block), upgrade) || c.None? then block.nodes else c.value.depth
  }

  function SiblingsOver(log: seq<Block>, ps: seq<Pos>, block: RequestBlock,
                        upgrade: Option<RequestUpgrade>): seq<Node> {
    NodesAt(log, SiblingPath(Leaf(block.index), SiblingLevels(ps, block, upgrade)))
  }

  /** The answer over these subtrees with the writer's nodes. */
  function SentOver(log: seq<Block>, ps: seq<Pos>, qs: seq<Pos>, fork: nat, signature: Signature,
                    block: Option<RequestBlock>, upgrade: Option<RequestUpgrade>): ValuelessProof
  {
    ValuelessProof(
      fork,
      if block.Some? then Some(DataHash(Leaf(block.value.index), SiblingsOver(log, ps, block.value, upgrade))) else None,
      if upgrade.Some?
      then Some(DataUpgrade(upgrade.value.start, upgrade.value.length,
                            NodesAt(log, Pushed(ps, Carried(block, upgrade))),
                            NodesAt(log, qs), Some(signature))) else None)
  }

  lemma {:induction false} BlockSiblingsExact(log: seq<Block>, b: nat, ps: seq<Pos>, view: View,
                                              block: Option<RequestBlock>, upgrade: Option<RequestUpgrade>)
    requires ExactNodes(log, view)
    ensures BlockSiblings(view, b, block, upgrade)
            == if !BelowUpgrade(block, upgrade) then Ok(None)
               else if StaysBelow(block.value.index, block.value.nodes, b) && Held(view, EarlyNeeds(block, upgrade))
               then Ok(Some(SiblingsOver(log, ps, block.value, upgrade))) else Err(InvalidOperation)
  {
    if BelowUpgrade(block, upgrade) && Held(view, EarlyNeeds(block, upgrade)) {
      LookupExact(view, log, EarlyNeeds(block, upgrade));
    }
  }

  lemma {:induction false} NothingCarried(ps: seq<Pos>)
    ensures NeededFor(ps, None) == ps && Pushed(ps, None) == ps
  {
    PushedNone(ps);
  }

  lemma {:induction false} TogetherExact(log: seq<Block>, view: View, st: Sending, ps: seq<Pos>, qs: seq<Pos>)
    requires ExactNodes(log, view)
    ensures Together(Send(view, st, ps), Send(view, Sending([], None, None), qs))
            == if Held(view, NeededFor(ps, st.want) + qs) then Ok((SentFor(log, st, ps), NodesAt(log, qs)))
               else Err(InvalidOperation)
  {
    SendExact(view, log, st, ps);
    SendExact(view, log, Sending([], None, None), qs);
    NothingCarried(qs);
    HeldConcat(view, NeededFor(ps, st.want), qs);
    assert [] + NodesAt(log, qs) == NodesAt(log, qs);
  }

  /** What is put together from the nodes sent is the answer, node by node. */
  lemma {:induction false} AssembledExact(log: seq<Block>, ps: seq<Pos>, qs: seq<Pos>, fork: nat, signature: Signature,
                                          block: Option<RequestBlock>, upgrade: Option<RequestUpgrade>,
                                          siblings: Option<seq<Node>>)
    requires siblings == if BelowUpgrade(block, upgrade) then Some(SiblingsOver(log, ps, block.value, upgrade)) else None
    requires Carried(block, upgrade).Some? ==> Carrier(ps, Carried(block, upgrade)).Some?
    ensures var st := Sending([], Carried(block, upgrade), siblings);
            if upgrade.Some? then
              Assemble(fork, Some(signature), block, upgrade, SentFor(log, st, ps), NodesAt(log, qs))
              == Ok(SentOver(log, ps, qs, fork, signature, block, upgrade))
            else Assemble(fork, Some(signature), block, upgrade, st, [])
                 == Ok(SentOver(log, ps, qs, fork, signature, block, upgrade))
  {
    var want := Carried(block, upgrade);
    assert [] + NodesAt(log, Pushed(ps, want)) == NodesAt(log, Pushed(ps, want));
  }

  /**
   A prover with the writer's nodes answers if and only if it knows what the answer needs, whatever it is asked; a block
   that the upgrade does not reach makes it panic.
   */
  lemma {:induction false} ProverExact(log: seq<Block>, view: View, b: nat, ps: seq<Pos>, qs: seq<Pos>, fork: nat,
                                       signature: Signature, block: Option<RequestBlock>,
                                       upgrade: Option<RequestUpgrade>)
    requires ExactNodes(log, view)
    ensures ProofOver(view, b, ps, qs, fork, Some(signature), block, upgrade)
            == if !AnswerableOver(view, b, ps, qs, block, upgrade) then Err(InvalidOperation)
               else if Carried(block, upgrade).Some? && Carrier(ps, Carried(block, upgrade)).None? then Err(Panic)
               else Ok(SentOver(log, ps, qs, fork, signature, block, upgrade))
  {
    BlockSiblingsExact(log, b, ps, view, block, upgrade);
    var siblings := BlockSiblings(view, b, block, upgrade);
    if siblings.Ok? {
      TogetherExact(log, view, Sending([], Carried(block, upgrade), siblings.value), ps, qs);
      if Carried(block, upgrade).Some? ==> Carrier(ps, Carried(block, upgrade)).Some? {
        AssembledExact(log, ps, qs, fork, signature, block, upgrade, siblings.value);
      }
    }
  }

  /** What is refused whatever the prover knows: nothing or too much asked for, and upgrades of an unsigned tree. */
  lemma {:induction false} Refused(view: View, n: nat, fork: nat, signature: Option<Signature>,
                                   block: Option<RequestBlock>, upgrade: Option<RequestUpgrade>)
    ensures UpgradeEnd(n, upgrade) == 0 || UpgradeEnd(n, upgrade) > n || (upgrade.Some? && upgrade.value.length == 0) ==>
              ProofSpec(view, n, fork, signature, block, upgrade) == Err(InvalidOperation)
    ensures upgrade.Some? && signature.None? ==> ProofSpec(view, n, fork, signature, block, upgrade).Err?
  {
  }

  lemma {:induction false} CarriedIs(m: nat, block: Option<RequestBlock>, upgrade: RequestUpgrade)
    requires upgrade.start == m
    ensures Carried(block, Some(upgrade)) == Wanted(BlockIndex(block), m)
  {
  }

  lemma {:induction false} LevelsAre(m: nat, block: RequestBlock, upgrade: Option<RequestUpgrade>)
    requires (upgrade.Some? ==> upgrade.value.start == m) && Placed(m, block, upgrade)
    ensures SiblingLevels(UpgradePath(upgrade), block, upgrade) == BlockRoot(block, m, upgrade).depth
    ensures Carried(Some(block), upgrade).Some? ==> Carrier(UpgradePath(upgrade), Carried(Some(block), upgrade)).Some?
  {
  }

  /** The answer, as far as the replica that asked for it can tell. */
  lemma {:induction false} SentOverIs(log: seq<Block>, m: nat, n: nat, fork: nat, signature: Signature,
                                      block: Option<RequestBlock>, upgrade: Option<RequestUpgrade>)
    requires upgrade.Some? ==> upgrade.value.start == m
    requires block.Some? ==> Placed(m, block.value, upgrade)
    ensures SentOver(log, UpgradePath(upgrade), PathBehind(n, upgrade), fork, signature, block, upgrade)
            == SentProof(log, m, n, fork, signature, block, upgrade)
    ensures Carried(block, upgrade).Some? ==> Carrier(UpgradePath(upgrade), Carried(block, upgrade)).Some?
  {
    if block.Some? {
      LevelsAre(m, block.value, upgrade);
    }
    if upgrade.Some? {
      CarriedIs(m, block, upgrade.value);
    }
  }

  /**
   A prover with the writer's nodes, a writer or a replica, answers a request if and only if it knows every position that
   the answer needs, and then it sends the writer's nodes.
   */
  lemma {:induction false} ProverAnswers(log: seq<Block>, n: nat, view: View, t: Tree, fork: nat, signature: Signature,
                      block: Option<RequestBlock>, upgrade: Option<RequestUpgrade>)
    requires Trusted(log, t) && ExactNodes(log, view) && Request(t, n, block, upgrade)
    ensures ProofSpec(view, n, fork, Some(signature), block, upgrade)
            == if Answerable(view, n, block, upgrade)
               then Ok(SentProof(log, t.length, n, fork, signature, block, upgrade)) else Err(InvalidOperation)
  {
    if block.Some? {
      RequestIsPlaced(log, n, t, block.value, upgrade);
    }
    SentOverIs(log, t.length, n, fork, signature, block, upgrade);
    ProverExact(log, view, UpgradeEnd(n, upgrade), UpgradePath(upgrade), PathBehind(n, upgrade), fork, signature, block,
                upgrade);
  }

  // ---------------------------------------------------------------- a prover that knows everything

  lemma {:induction false} PathBounded(a: nat, b: nat, n: nat)
    requires b <= n
    ensures forall p :: p in Path(a, b) ==> Hi(p) <= n
  {
    forall p | p in Path(a, b)
      ensures Hi(p) <= n
    {
      PathInside(a, b, p);
    }
  }

  lemma {:induction false} PushedFrom(ps: seq<Pos>, want: Option<nat>, p: Pos)
    requires p in Pushed(ps, want)
    ensures p in ps
  {
    if want.Some? && HasLeaf(ps[0], want.value) {
      PushedFrom(ps[1..], None, p);
    } else if p != ps[0] {
      PushedFrom(ps[1..], want, p);
    }
  }

  lemma {:induction false} NeededInside(m: nat, b: nat, n: nat, want: Option<nat>, p: Pos)
    requires b <= n && p in NeededFor(Path(m, b), want)
    ensures Hi(p) <= n
  {
    var ps := Path(m, b);
    PathBounded(m, b, n);
    if p in Pushed(ps, want) {
      PushedFrom(ps, want, p);
    } else {
      CarrierIn(ps, want);
      var c := Carrier(ps, want).value;
      LeafWithin(want.value, c);
      SiblingPathInside(Leaf(want.value), c.depth, p);
    }
  }

  lemma {:induction false} CarrierIn(ps: seq<Pos>, want: Option<nat>)
    ensures Carrier(ps, want).Some? ==> Carrier(ps, want).value in ps && HasLeaf(Carrier(ps, want).value, want.value)
  {
    if ps != [] && want.Some? && !HasLeaf(ps[0], want.value) {
      CarrierIn(ps[1..], want);
    }
  }

  lemma {:induction false} EarlyHeld(log: seq<Block>, n: nat, view: View, t: Tree, block: RequestBlock)
    requires Trusted(log, t) && Full(view, log, n) && t.length <= n
    requires block.index < t.length && Missing(t.view, Leaf(block.index), block.nodes)
    ensures Held(view, SiblingPath(Leaf(block.index), block.nodes))
    ensures forall b :: b >= t.length ==> StaysBelow(block.index, block.nodes, b)
  {
    var i, k := block.index, block.nodes;
    KnownPlaced(log, t, i, k);
    forall q | q in SiblingPath(Leaf(i), k)
      ensures q in view
    {
      SiblingPathInside(Leaf(i), k, q);
    }
  }

  lemma {:induction false} UpgradeHeld(log: seq<Block>, n: nat, view: View, m: nat, b: nat, want: Option<nat>)
    requires Full(view, log, n) && b <= n
    ensures Held(view, NeededFor(Path(m, b), want) + Path(b, n))
  {
    PathBounded(b, n, n);
    forall p | p in NeededFor(Path(m, b), want)
      ensures p in view
    {
      NeededInside(m, b, n, want, p);
    }
  }

  /** The writer answers every request of a replica that is not longer. */
  lemma {:induction false} WriterAnswers(log: seq<Block>, n: nat, view: View, t: Tree,
                                         block: Option<RequestBlock>, upgrade: Option<RequestUpgrade>)
    requires Trusted(log, t) && Full(view, log, n) && t.length <= n && Request(t, n, block, upgrade)
    ensures Answerable(view, n, block, upgrade)
  {
    if BelowUpgrade(block, upgrade) {
      EarlyHeld(log, n, view, t, block.value);
    }
    if upgrade.Some? {
      var m, b := upgrade.value.start, upgrade.value.start + upgrade.value.length;
      UpgradeHeld(log, n, view, m, b, Carried(block, upgrade));
    }
  }

  // ---------------------------------------------------------------- the verifier

  /** The queue finds every node it is asked for, and uses up a block root exactly if it lies in the upgrade. */
  lemma {:induction false} SuppliesSent(log: seq<Block>, m: nat, b: nat, i: Option<nat>, root: Option<Pos>)
    requires i.Some? <==> root.Some?
    requires i.Some? && i.value < m ==> Hi(root.value) <= m
    requires i.Some? && i.value >= m ==> Carrier(Path(m, b), i) == root && root.value in Path(m, b)
    ensures var extra := RootNode(log, root);
            && Supplies(log, Queue(NodesAt(log, Pushed(Path(m, b), Wanted(i, m))), extra), Path(m, b))
            && ExtraAfter(extra, Path(m, b)) == if i.Some? && i.value < m then extra else None
  {
    if i.Some? && i.value >= m {
      SuppliesCarried(log, Path(m, b), i.value);
    } else {
      if root.Some? && root.value in Path(m, b) {
        PathInside(m, b, root.value);
        assert false;
      }
      PushedNone(Path(m, b));
      SuppliesAll(log, Path(m, b), RootNode(log, root));
    }
  }

  /** The upgrade the writer sends leads to the writer's roots. */
  lemma {:induction false} UpgradeAccepted(log: seq<Block>, m: nat, b: nat, n: nat, d: Draft, i: Option<nat>,
                                           root: Option<Pos>,
                        signature: Signature)
    requires d.length == m && d.roots == NodesAt(log, Roots(m)) && m <= b <= n && 0 < b
    requires i.Some? <==> root.Some?
    requires i.Some? && i.value < m ==> Hi(root.value) <= m
    requires i.Some? && i.value >= m ==> Carrier(Path(m, b), i) == root && root.value in Path(m, b)
    ensures var sent := SentUpgrade(log, m, b, n, i, signature);
            var r := UpgradeSpec(d, sent, RootNode(log, root));
            && r.Ok? && r.value.0.length == n && r.value.0.roots == NodesAt(log, Roots(n))
            && r.value.0.nodes == d.nodes + NodesAt(log, UpgradePositions(m, b, n))
            && r.value.1.extra == if i.Some? && i.value < m then RootNode(log, root) else None
  {
    var extra := RootNode(log, root);
    SuppliesSent(log, m, b, i, root);
    UpgradeHonest(log, d, SentUpgrade(log, m, b, n, i, signature), extra, m, b, n);
  }

  /** The block the writer sends hashes up to the writer's node. */
  lemma {:induction false} BlockAccepted(log: seq<Block>, m: nat, block: RequestBlock, upgrade: Option<RequestUpgrade>)
    requires block.index < |log| && Placed(m, block, upgrade)
    ensures var h := BlockRoot(block, m, upgrade);
            VerifyTreeSpec(Some(DataBlock(block.index, log[block.index], SentBlock(log, m, block, upgrade).nodes)),
                           None, None)
            == Ok((Some(NodeAt(log, h)),
                   NodesAt(log, [Leaf(block.index)] + ClimbPositions(Leaf(block.index), h.depth))))
  {
    BlockHonest(log, block.index, BlockRoot(block, m, upgrade).depth);
  }

  /** The proof as it arrives. */
  function ArrivingProof(log: seq<Block>, m: nat, n: nat, fork: nat,
                         block: Option<RequestBlock>, upgrade: Option<RequestUpgrade>): Proof
    requires block.Some? ==> block.value.index < |log|
  {
    WithValue(SentProof(log, m, n, fork, Signature(WriterSignable(log, n, fork)), block, upgrade),
              if block.Some? then Some(log[block.value.index]) else None)
  }

  /** Positions of the nodes an accepted proof adds. */
  function ArrivingPositions(m: nat, n: nat, block: Option<RequestBlock>, upgrade: Option<RequestUpgrade>): seq<Pos> {
    BlockPositions(m, block, upgrade)
    + if upgrade.Some? then UpgradePositions(m, m + upgrade.value.length, n) else []
  }

  /** The steps of verify_proof for a proof with an upgrade. */
  lemma {:induction false} VerifyInSteps(t: Tree, proof: Proof, signed: set<Signable>, root: Option<Node>, d: Draft,
                                         d': Draft, q: Queue)
    requires VerifyTreeSpec(proof.block, proof.hash, proof.seek) == Ok((root, d.nodes))
    requires d == Draft(t.length, t.byteLength, false, t.roots, d.nodes)
    requires proof.upgrade.Some? && UpgradeSpec(d, proof.upgrade.value, root) == Ok((d', q))
    requires proof.upgrade.value.signature.Some?
    requires Verifies(signed, SignableOf(d'.roots, d'.length, proof.fork), proof.upgrade.value.signature.value)
    requires CheckKnown(t.view, if q.extra.None? then None else root).Ok?
    ensures VerifyProofSpec(t, proof, signed) == Ok(d')
  {
  }

  /** The draft after verify_tree, and the root it leaves to be checked. */
  function BlockPositions(m: nat, block: Option<RequestBlock>, upgrade: Option<RequestUpgrade>): seq<Pos> {
    if block.Some?
    then [Leaf(block.value.index)] + ClimbPositions(Leaf(block.value.index), BlockRoot(block.value, m, upgrade).depth)
    else []
  }

  function RootPosition(m: nat, block: Option<RequestBlock>, upgrade: Option<RequestUpgrade>): Option<Pos> {
    if block.Some? then Some(BlockRoot(block.value, m, upgrade)) else None
  }

  function RootNode(log: seq<Block>, root: Option<Pos>): Option<Node> {
    if root.Some? then Some(NodeAt(log, root.value)) else None
  }

  lemma {:induction false} TreePartAccepted(log: seq<Block>, m: nat, n: nat, fork: nat, block: Option<RequestBlock>,
                                            upgrade: Option<RequestUpgrade>)
    requires block.Some? ==> Placed(m, block.value, upgrade) && block.value.index < |log|
    ensures var proof := ArrivingProof(log, m, n, fork, block, upgrade);
            VerifyTreeSpec(proof.block, proof.hash, proof.seek)
            == Ok((RootNode(log, RootPosition(m, block, upgrade)), NodesAt(log, BlockPositions(m, block, upgrade))))
  {
    if block.Some? {
      BlockAccepted(log, m, block.value, upgrade);
    } else {
      assert NodesAt(log, []) == [];
    }
  }

  lemma {:induction false} PendingIsKnown(log: seq<Block>, t: Tree, i: Option<nat>, root: Option<Pos>,
                                          extra: Option<Node>)
    requires i.Some? <==> root.Some?
    requires i.Some? && i.value < t.length ==> root.value in t.view && t.view[root.value] == NodeAt(log, root.value)
    requires extra == if i.Some? && i.value < t.length then RootNode(log, root) else None
    ensures CheckKnown(t.view, if extra.None? then None else RootNode(log, root)).Ok?
  {
  }

  lemma {:induction false} UpgradePartAccepted(log: seq<Block>, t: Tree, b: nat, n: nat, d: Draft, i: Option<nat>,
                                               root: Option<Pos>,
                            signature: Signature)
    requires d.length == t.length && d.roots == NodesAt(log, Roots(t.length)) && t.length <= b <= n && 0 < b
    requires i.Some? <==> root.Some?
    requires i.Some? && i.value < t.length ==>
               Hi(root.value) <= t.length && root.value in t.view && t.view[root.value] == NodeAt(log, root.value)
    requires i.Some? && i.value >= t.length ==>
               Carrier(Path(t.length, b), i) == root && root.value in Path(t.length, b)
    ensures var r := UpgradeSpec(d, SentUpgrade(log, t.length, b, n, i, signature), RootNode(log, root));
            && r.Ok? && r.value.0.length == n && r.value.0.roots == NodesAt(log, Roots(n))
            && r.value.0.nodes == d.nodes + NodesAt(log, UpgradePositions(t.length, b, n))
            && CheckKnown(t.view, if r.value.1.extra.None? then None else RootNode(log, root)).Ok?
  {
    UpgradeAccepted(log, t.length, b, n, d, i, root, signature);
    var r := UpgradeSpec(d, SentUpgrade(log, t.length, b, n, i, signature), RootNode(log, root)).value;
    PendingIsKnown(log, t, i, root, r.1.extra);
  }

  lemma {:induction false} UpgradeProofAccepted(log: seq<Block>, n: nat, t: Tree, fork: nat, signed: set<Signable>,
                             block: Option<RequestBlock>, upgrade: RequestUpgrade)
    requires t.roots == NodesAt(log, Roots(t.length)) && n <= |log|
    requires upgrade.start == t.length && 0 < upgrade.length <= n - t.length
    requires block.Some? ==> Placed(t.length, block.value, Some(upgrade)) && block.value.index < |log|
    requires block.Some? && block.value.index < t.length ==>
               var p := BlockRoot(block.value, t.length, Some(upgrade)); p in t.view && t.view[p] == NodeAt(log, p)
    requires WriterSignable(log, n, fork) in signed
    ensures var r := VerifyProofSpec(t, ArrivingProof(log, t.length, n, fork, block, Some(upgrade)), signed);
            r.Ok? && r.value.length == n
            && r.value.nodes == NodesAt(log, ArrivingPositions(t.length, n, block, Some(upgrade)))
  {
    var m, b, i := t.length, t.length + upgrade.length, BlockIndex(block);
    var root := RootPosition(m, block, Some(upgrade));
    var ps := BlockPositions(m, block, Some(upgrade));
    TreePartAccepted(log, m, n, fork, block, Some(upgrade));
    AcceptedWithUpgrade(log, t, ArrivingProof(log, m, n, fork, block, Some(upgrade)), signed, b, n, NodesAt(log, ps), i,
                        root);
    NodesAtConcat(log, ps, UpgradePositions(m, b, n));
  }

  /** A proof whose tree part checks out and whose upgrade is the writer's is accepted. */
  lemma {:induction false} AcceptedWithUpgrade(log: seq<Block>, t: Tree, proof: Proof, signed: set<Signable>, b: nat,
                                               n: nat, nodes: seq<Node>,
                            i: Option<nat>, root: Option<Pos>)
    requires t.roots == NodesAt(log, Roots(t.length)) && t.length <= b <= n && 0 < b
    requires WriterSignable(log, n, proof.fork) in signed
    requires proof.upgrade == Some(SentUpgrade(log, t.length, b, n, i, Signature(WriterSignable(log, n, proof.fork))))
    requires VerifyTreeSpec(proof.block, proof.hash, proof.seek) == Ok((RootNode(log, root), nodes))
    requires i.Some? <==> root.Some?
    requires i.Some? && i.value < t.length ==>
               Hi(root.value) <= t.length && root.value in t.view && t.view[root.value] == NodeAt(log, root.value)
    requires i.Some? && i.value >= t.length ==>
               Carrier(Path(t.length, b), i) == root && root.value in Path(t.length, b)
    ensures var r := VerifyProofSpec(t, proof, signed);
            r.Ok? && r.value.length == n && r.value.nodes == nodes + NodesAt(log, UpgradePositions(t.length, b, n))
  {
    var d := Draft(t.length, t.byteLength, false, t.roots, nodes);
    var signature := Signature(WriterSignable(log, n, proof.fork));
    UpgradePartAccepted(log, t, b, n, d, i, root, signature);
    var r := UpgradeSpec(d, SentUpgrade(log, t.length, b, n, i, signature), RootNode(log, root)).value;
    VerifyInSteps(t, proof, signed, RootNode(log, root), d, r.0, r.1);
  }

  lemma {:induction false} BlockProofAccepted(log: seq<Block>, n: nat, t: Tree, fork: nat, signed: set<Signable>,
                                              block: RequestBlock)
    requires Placed(t.length, block, None) && block.index < |log|
    requires var p := BlockRoot(block, t.length, None); p in t.view && t.view[p] == NodeAt(log, p)
    ensures var proof := ArrivingProof(log, t.length, n, fork, Some(block), None);
            && VerifyProofSpec(t, proof, signed).Ok?
            && var d := VerifyProofSpec(t, proof, signed).value;
            d.length == t.length && d.nodes == NodesAt(log, ArrivingPositions(t.length, n, Some(block), None))
  {
    BlockAccepted(log, t.length, block, None);
    var ps := [Leaf(block.index)] + ClimbPositions(Leaf(block.index), BlockRoot(block, t.length, None).depth);
    assert ps + [] == ps;
  }

  /** Whatever leads to the writer's node where the replica knows one is accepted, bare hashes and seeks included. */
  lemma {:induction false} TreeProofAccepted(t: Tree, proof: Proof, signed: set<Signable>, root: Node, nodes: seq<Node>)
    requires proof.upgrade.None? && VerifyTreeSpec(proof.block, proof.hash, proof.seek) == Ok((Some(root), nodes))
    ensures VerifyProofSpec(t, proof, signed).Ok? <==> root.pos in t.view && t.view[root.pos].hash == root.hash
    ensures root.pos in t.view && t.view[root.pos].hash == root.hash ==>
              VerifyProofSpec(t, proof, signed) == Ok(Draft(t.length, t.byteLength, false, t.roots, nodes))
  {
  }

  /** The answer with the block's value. */
  function AnswerWith(log: seq<Block>, p: ValuelessProof, block: Option<RequestBlock>): Proof
    requires block.Some? ==> block.value.index < |log|
    requires p.block.Some? ==> block.Some? && p.block.value.pos.depth == 0
  {
    WithValue(p, if block.Some? then Some(log[block.value.index]) else None)
  }

  /** What the answer leads the replica to: the prover's roots if it asked to upgrade, and the block's leaf. */
  ghost predicate LeadsReplica(log: seq<Block>, p: Tree, t: Tree, proof: Proof, signed: set<Signable>,
                               block: Option<RequestBlock>, upgrade: Option<RequestUpgrade>) {
    && VerifyProofSpec(t, proof, signed).Ok?
    && var t' := CommitSpec(t, VerifyProofSpec(t, proof, signed).value, t.fork);
    && Honest(log, t') && t'.length == (if upgrade.Some? then p.length else t.length)
    && t'.roots == (if upgrade.Some? then p.roots else t.roots)
    && (block.Some? ==> Leaf(block.value.index) in t'.view)
  }

  /**
   Completeness. An honest replica asks another honest core of its fork, the writer or a replica of any length, for a
   block, for an upgrade, or for both, with `nodes` from missing_nodes. It gets an answer if and only if the other
   knows every position that the answer needs. Verification accepts every answer, and after the commit the replica is
   honest again, has the other's roots if it asked to upgrade (additional nodes included), and knows the block's leaf.
   */
  lemma {:induction false} ReplicationSucceeds(log: seq<Block>, p: Tree, t: Tree, signed: set<Signable>,
                            block: Option<RequestBlock>, upgrade: Option<RequestUpgrade>)
    requires Honest(log, p) && Honest(log, t) && p.fork == t.fork && Request(t, p.length, block, upgrade)
    requires SignedOnly(signed, log) && WriterSignable(log, p.length, t.fork) in signed
    ensures block.Some? ==> block.value.index < |log|
    ensures var r := ProofSpec(p.view, p.length, p.fork, Some(Signature(WriterSignable(log, p.length, p.fork))), block,
                               upgrade);
            && (r.Ok? <==> Answerable(p.view, p.length, block, upgrade))
            && (r.Ok? ==>
                  && r.value == SentProof(log, t.length, p.length, t.fork,
                                          Signature(WriterSignable(log, p.length, t.fork)), block, upgrade)
                  && LeadsReplica(log, p, t, AnswerWith(log, r.value, block), signed, block, upgrade))
  {
    var n := p.length;
    ProverAnswers(log, n, p.view, t, t.fork, Signature(WriterSignable(log, n, t.fork)), block, upgrade);
    SentLeads(log, p, t, signed, block, upgrade);
  }

  /** The writer's answer is the whole answer. */
  lemma {:induction false} WriterSends(log: seq<Block>, p: Tree, t: Tree, block: Option<RequestBlock>,
                                       upgrade: Option<RequestUpgrade>)
    requires Honest(log, p) && Honest(log, t) && p.fork == t.fork && Request(t, p.length, block, upgrade)
    requires Full(p.view, log, p.length) && t.length <= p.length && (block.Some? ==> block.value.index < |log|)
    ensures var sent := ProofSpec(p.view, p.length, p.fork, WriterSignature(log, p.length, p.fork), block, upgrade);
            sent.Ok?
            && AnswerWith(log, sent.value, block) == ArrivingProof(log, t.length, p.length, t.fork, block, upgrade)
  {
    WriterAnswers(log, p.length, p.view, t, block, upgrade);
    ProverAnswers(log, p.length, p.view, t, p.fork, Signature(WriterSignable(log, p.length, p.fork)), block, upgrade);
  }

  lemma {:induction false} SentLeads(log: seq<Block>, p: Tree, t: Tree, signed: set<Signable>,
                            block: Option<RequestBlock>, upgrade: Option<RequestUpgrade>)
    requires Honest(log, p) && Honest(log, t) && p.fork == t.fork && Request(t, p.length, block, upgrade)
    requires SignedOnly(signed, log) && WriterSignable(log, p.length, t.fork) in signed
    ensures block.Some? ==> block.value.index < |log|
    ensures LeadsReplica(log, p, t, ArrivingProof(log, t.length, p.length, t.fork, block, upgrade), signed, block,
                         upgrade)
  {
    var n := p.length;
    if block.Some? {
      RequestIsPlaced(log, n, t, block.value, upgrade);
    }
    if upgrade.Some? {
      UpgradeProofAccepted(log, n, t, t.fork, signed, block, upgrade.value);
    } else {
      BlockProofAccepted(log, n, t, t.fork, signed, block.value);
    }
    var proof := ArrivingProof(log, t.length, n, t.fork, block, upgrade);
    CommittedHonest(log, t, proof, signed, ArrivingPositions(t.length, n, block, upgrade));
  }

  /** Committing the writer's own nodes keeps a tree honest. */
  lemma {:induction false} CommittedHonest(log: seq<Block>, t: Tree, proof: Proof, signed: set<Signable>, ps: seq<Pos>)
    requires Honest(log, t) && SignedOnly(signed, log)
    requires VerifyProofSpec(t, proof, signed).Ok?
    requires VerifyProofSpec(t, proof, signed).value.nodes == NodesAt(log, ps)
    ensures var d := VerifyProofSpec(t, proof, signed).value;
            var t' := CommitSpec(t, d, proof.fork);
            && Honest(log, t') && t'.length == d.length
            && (proof.block.Some? ==> Leaf(proof.block.value.index) in t'.view)
  {
    var d := VerifyProofSpec(t, proof, signed).value;
    AcceptedProofIsSound(log, t, proof, signed);
    AddedExactly(log, t.view, ps);
  }

  lemma {:induction false} AddedExactly(log: seq<Block>, view: View, ps: seq<Pos>)
    requires ExactNodes(log, view)
    ensures ExactNodes(log, AddNodes(view, NodesAt(log, ps)))
  {
    AddNodesView(view, NodesAt(log, ps));
  }
}
