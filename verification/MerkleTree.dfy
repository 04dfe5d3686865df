/**
 The Merkle tree object (src/tree/merkle_tree.rs): roots in memory, nodes in a cache, in
 the unflushed map and in the tree store. `store` is the tree store's content.
 */
module MerkleTrees {
  import opened Common
  import opened FlatTree
  import opened Hashes
  import opened Changesets
  import opened Verify
  import opened Verifier
  import opened Prover

  class MerkleTree {
    var roots: seq<Node>
    var length: nat
    var byteLength: nat
    var fork: nat
    var signature: Option<Signature>
    var unflushed: View
    /** The optional node cache; it may drop any node at any time. */
    var cache: Option<View>

    /** The one map that the three layers stand for. */
    function ViewOf(store: View): View
      reads this
    {
      store + unflushed
    }

    /** Whatever is cached is what the other layers hold. */
    ghost predicate Coherent(store: View)
      reads this
    {
      cache.Some? ==> forall p :: p in cache.value ==> p in ViewOf(store) && cache.value[p] == ViewOf(store)[p]
    }

    /** Whatever is cached has the hash that the other layers hold. */
    ghost predicate HashCoherent(store: View)
      reads this
    {
      cache.Some? ==> forall p :: p in cache.value ==> p in ViewOf(store) && cache.value[p].hash == ViewOf(store)[p].hash
    }

    /** What lookups see: the cache comes first. */
    function SeenOf(store: View): View
      reads this
    {
      if cache.Some? then ViewOf(store) + cache.value else ViewOf(store)
    }

    function SeenTree(store: View): Tree
      reads this
    {
      Tree(length, byteLength, fork, roots, SeenOf(store))
    }

    function TreeOf(store: View): Tree
      reads this
    {
      Tree(length, byteLength, fork, roots, ViewOf(store))
    }

    /** Opened from the header's length and the stored roots. */
    constructor (roots: seq<Node>, length: nat, byteLength: nat, fork: nat, signature: Option<Signature>, cached: bool)
      ensures this.roots == roots && this.length == length && this.byteLength == byteLength && this.fork == fork
      ensures this.signature == signature && unflushed == map[]
      ensures cache == if cached then Some(AddNodes(map[], roots)) else None
    {
      this.roots, this.length, this.byteLength, this.fork := roots, length, byteLength, fork;
      this.signature, unflushed := signature, map[];
      cache := if cached then Some(AddNodes(map[], roots)) else None;
    }

    /** `node`: cache first, then unflushed, then the store; a node read from the store is cached. */
    method Lookup(store: View, p: Pos) returns (r: Option<Node>)
      requires HashCoherent(store)
      modifies this`cache
      ensures HashCoherent(store) && (old(Coherent(store)) ==> Coherent(store)) && SeenOf(store) == old(SeenOf(store))
      ensures r == if p in SeenOf(store) then Some(SeenOf(store)[p]) else None
      ensures r.Some? <==> p in ViewOf(store)
      ensures r.Some? ==> r.value.hash == ViewOf(store)[p].hash
      ensures old(Coherent(store)) && r.Some? ==> r.value == ViewOf(store)[p]
    {
      if cache.Some? && p in cache.value {
        return Some(cache.value[p]);
      }
      if p in unflushed {
        return Some(unflushed[p]);
      }
      if p in store {
        if cache.Some? {
          cache := Some(cache.value[p := store[p]]);
        }
        return Some(store[p]);
      }
      return None;
    }

    /** The cache drops nodes on its own. */
    method Evict(ps: set<Pos>, ghost store: View)
      requires HashCoherent(store)
      modifies this`cache
      ensures HashCoherent(store) && (old(Coherent(store)) ==> Coherent(store) && SeenOf(store) == old(SeenOf(store)))
    {
      if cache.Some? {
        cache := Some(cache.value - ps);
      }
    }

    method NewChangeset() returns (cs: Changeset)
      ensures fresh(cs) && cs.View() == Draft(length, byteLength, false, roots, []) && cs.fork == fork
      ensures cs.originalLength == cs.ancestors == length && cs.originalFork == fork && cs.batchLength == 0
      ensures cs.hash.None? && cs.signature.None?
    {
      cs := new Changeset(length, byteLength, fork, roots);
    }

    predicate Commitable(cs: Changeset)
      reads this, cs
    {
      cs.originalFork == fork && (if cs.upgraded then cs.originalLength == length else cs.originalLength <= length)
    }

    /** `commit` of a changeset that does not shrink the tree. */
    method Commit(cs: Changeset, ghost store: View) returns (r: Result<()>)
      requires cs.ancestors >= cs.originalLength
      requires HashCoherent(store)
      modifies this
      ensures r.Ok? <==> old(Commitable(cs))
      ensures old(cs.upgraded && length != cs.originalLength) || old(length < cs.originalLength || fork != cs.originalFork) ==>
                r == Err(InvalidOperation)
      ensures r.Err? ==> TreeOf(store) == old(TreeOf(store)) && signature == old(signature) && cache == old(cache)
      ensures r.Ok? ==> TreeOf(store) == CommitSpec(old(TreeOf(store)), cs.View(), cs.fork)
      ensures r.Ok? ==> signature == if cs.upgraded then cs.signature else old(signature)
      ensures r.Ok? && HashAgrees(old(ViewOf(store)), cs.nodes) ==> HashCoherent(store)
      ensures r.Ok? && old(Coherent(store)) && Agrees(old(ViewOf(store)), cs.nodes) ==> Coherent(store)
    {
      if !Commitable(cs) {
        return Err(InvalidOperation);
      }
      if cs.upgraded {
        roots, length, byteLength, fork, signature := cs.roots, cs.length, cs.byteLength, cs.fork, cs.signature;
      }
      ghost var was := unflushed;
      unflushed := AddNodes(unflushed, cs.nodes);
      AddNodesOver(store, was, cs.nodes);
      AgreesKeeps(store + was, cs.nodes);
      return Ok(());
    }

    method AddNode(node: Node, ghost store: View)
      requires Coherent(store)
      modifies this`unflushed
      ensures ViewOf(store) == old(ViewOf(store))[node.pos := node]
      ensures (node.pos in old(ViewOf(store)) ==> old(ViewOf(store))[node.pos] == node) ==> Coherent(store)
    {
      unflushed := unflushed[node.pos := node];
    }

    /** `flush_nodes`: hands out every unflushed node; writing them changes no lookup. */
    method FlushNodes(ghost store: View) returns (nodes: View)
      requires HashCoherent(store)
      modifies this`unflushed
      ensures nodes == old(unflushed) && unflushed == map[]
      ensures ViewOf(store + nodes) == old(ViewOf(store)) && SeenOf(store + nodes) == old(SeenOf(store))
      ensures HashCoherent(store + nodes) && (old(Coherent(store)) ==> Coherent(store + nodes))
    {
      nodes := unflushed;
      unflushed := map[];
      assert store + nodes + map[] == store + nodes;
    }

    /** `truncate`, used on reopening to move to the length of a logged upgrade; `None` when a root is not found. */
    method Truncate(newLength: nat, newFork: nat, store: View, ghost log: seq<Block>) returns (r: Result<Changeset>)
      requires Coherent(store)
      requires roots == NodesAt(log, Roots(length)) && ExactNodes(log, ViewOf(store))
      modifies this`cache
      ensures Coherent(store)
      ensures (forall k :: 0 <= k < |Roots(newLength)| ==> Roots(newLength)[k] in ViewOf(store)) ==> r.Ok?
      ensures r.Ok? ==> fresh(r.value) && r.value.fork == newFork && r.value.ancestors == newLength
                        && r.value.originalLength == length && r.value.originalFork == fork
      ensures r.Ok? ==> var all := NodesAt(log, Roots(newLength));
                        r.value.View() == Draft(newLength, TotalLength(all), true, all, [])
    {
      var found := RootsFor(Roots(newLength), store, log);
      if found.Err? {
        return Err(found.error);
      }
      var cs := NewChangeset();
      cs.roots, cs.fork, cs.length, cs.ancestors := found.value, newFork, newLength, newLength;
      cs.byteLength, cs.upgraded := TotalLength(found.value), true;
      return Ok(cs);
    }

    /** Keeps the roots that are in place, drops the others and looks up what is missing. */
    method RootsFor(fullRoots: seq<Pos>, store: View, ghost log: seq<Block>) returns (r: Result<seq<Node>>)
      requires Coherent(store)
      requires (forall x :: x in roots ==> x == NodeAt(log, x.pos)) && ExactNodes(log, ViewOf(store))
      modifies this`cache
      ensures Coherent(store)
      ensures (forall k :: 0 <= k < |fullRoots| ==> fullRoots[k] in ViewOf(store)) ==> r.Ok?
      ensures r.Ok? ==> r.value == NodesAt(log, fullRoots)
    {
      var rs := roots;
      for k := 0 to |fullRoots|
        invariant Coherent(store)
        invariant k <= |rs| && (forall x :: x in rs ==> x == NodeAt(log, x.pos))
        invariant forall j :: 0 <= j < k ==> rs[j].pos == fullRoots[j]
      {
        if k < |rs| && rs[k].pos == fullRoots[k] {
          continue;
        }
        var node := Lookup(store, fullRoots[k]);
        if node.None? {
          return Err(InvalidOperation);
        }
        rs := rs[..k] + [node.value];
      }
      return Ok(rs[..|fullRoots|]);
    }

    /** `verify_proof`: runs the verifier on a fresh changeset and checks a left-over root against the tree. */
    method VerifyProof(proof: Proof, signed: set<Signable>, store: View) returns (r: Result<Changeset>)
      requires HashCoherent(store)
      modifies this`cache
      ensures HashCoherent(store) && (old(Coherent(store)) ==> Coherent(store)) && SeenOf(store) == old(SeenOf(store))
      ensures match VerifyProofSpec(TreeOf(store), proof, signed)
              case Ok(d) => r.Ok? && fresh(r.value) && r.value.View() == d
                            && r.value.originalLength == r.value.ancestors == length && r.value.originalFork == fork
                            && r.value.fork == (if proof.upgrade.Some? then proof.fork else fork)
                            && (d.upgraded ==>
                                  && r.value.hash == Some(TreeHash(d.roots))
                                  && r.value.signature == Some(Signature(SignableOf(d.roots, d.length, proof.fork))))
              case Err(e) => r == Err(e)
    {
      var cs := NewChangeset();
      var root := VerifyTree(proof.block, proof.hash, proof.seek, cs);
      if root.Err? {
        return Err(root.error);
      }
      var pending := root.value;
      if proof.upgrade.Some? {
        var done := VerifyUpgrade(proof.fork, proof.upgrade.value, pending, signed, cs);
        if done.Err? {
          return Err(done.error);
        }
        if done.value {
          pending := None;
        }
      }
      var known := CheckPending(pending, store);
      if known.Err? {
        return Err(known.error);
      }
      return Ok(cs);
    }

    /** A root that no upgrade has used must have the hash of the node that is known there. */
    method CheckPending(pending: Option<Node>, store: View) returns (r: Result<()>)
      requires HashCoherent(store)
      modifies this`cache
      ensures HashCoherent(store) && (old(Coherent(store)) ==> Coherent(store)) && SeenOf(store) == old(SeenOf(store))
      ensures r == CheckKnown(ViewOf(store), pending)
    {
      if pending.None? {
        return Ok(());
      }
      var known := Lookup(store, pending.value.pos);
      if known.None? {
        return Err(InvalidOperation);
      }
      if known.value.hash != pending.value.hash {
        return Err(InvalidChecksum);
      }
      return Ok(());
    }
  }

  /** The roots of a length, with their bytes and the blocks they span, read from the store. */
  method ReadRoots(length: nat, store: View) returns (r: Result<seq<Node>>, bytes: nat, span: nat)
    ensures r.Ok? <==> forall k :: 0 <= k < |Roots(length)| ==> Roots(length)[k] in store
    ensures r.Ok? ==> r.value == Lookup(store, Roots(length)) && bytes == TotalLength(r.value) && span == 2 * length
  {
    var indices := Roots(length);
    var roots: seq<Node> := [];
    bytes, span := 0, 0;
    RootsStart(length);
    for k := 0 to |indices|
      invariant Held(store, indices[..k]) && roots == Lookup(store, indices[..k])
      invariant bytes == TotalLength(roots) && span == 2 * Boundary(length, k)
    {
      var p := indices[k];
      assert indices[..k + 1] == indices[..k] + [p];
      RootsAdjacent(length, k);
      IndexSpan(p);
      if p !in store {
        return Err(InvalidOperation), bytes, span;
      }
      TotalLengthSnoc(roots, store[p]);
      bytes := bytes + store[p].length;
      span := span + 2 * (Index(p) - span + 1);
      roots := roots + [store[p]];
    }
    assert indices[..|indices|] == indices;
    r := Ok(roots);
  }

  /** `open`: reads the roots of the header's length from the store. */
  method OpenTree(length: nat, fork: nat, signature: Option<Signature>, cached: bool, store: View)
    returns (r: Result<MerkleTree>)
    ensures r.Ok? <==> forall k :: 0 <= k < |Roots(length)| ==> Roots(length)[k] in store
    ensures r.Ok? ==> fresh(r.value) && r.value.roots == Lookup(store, Roots(length)) && r.value.length == length
                      && r.value.byteLength == TotalLength(r.value.roots) && r.value.fork == fork
                      && r.value.signature == signature && r.value.unflushed == map[]
    ensures r.Ok? && (forall p :: p in store ==> store[p].pos == p) ==> r.value.Coherent(store)
  {
    var roots, bytes, span := ReadRoots(length, store);
    if roots.Err? {
      return Err(roots.error);
    }
    var tree := new MerkleTree(roots.value, span / 2, bytes, fork, signature, cached);
    if forall p :: p in store ==> store[p].pos == p {
      AddNodesView(map[], roots.value);
      assert store + map[] == store;
    }
    return Ok(tree);
  }

  /** Nodes that are already known are added with the same value. */
  ghost predicate Agrees(view: View, nodes: seq<Node>) {
    forall x :: x in nodes && x.pos in view ==> view[x.pos] == x
  }

  lemma {:induction false} AddNodesOver(store: View, unflushed: View, nodes: seq<Node>)
    ensures store + AddNodes(unflushed, nodes) == AddNodes(store + unflushed, nodes)
  {
    if nodes != [] {
      var front, last := nodes[..|nodes| - 1], nodes[|nodes| - 1];
      AddNodesOver(store, unflushed, front);
      assert store + AddNodes(unflushed, front)[last.pos := last]
             == (store + AddNodes(unflushed, front))[last.pos := last];
    }
  }

  /** Nodes that are already known are added with the same hash. */
  ghost predicate HashAgrees(view: View, nodes: seq<Node>) {
    forall x :: x in nodes && x.pos in view ==> view[x.pos].hash == x.hash
  }

  /** Adding agreeing nodes changes the node, or the hash, of no position that was known. */
  lemma {:induction false} AgreesKeeps(view: View, nodes: seq<Node>)
    ensures forall p :: p in view ==> p in AddNodes(view, nodes)
    ensures Agrees(view, nodes) ==> forall p :: p in view ==> AddNodes(view, nodes)[p] == view[p]
    ensures HashAgrees(view, nodes) ==> forall p :: p in view ==> AddNodes(view, nodes)[p].hash == view[p].hash
  {
    AddNodesView(view, nodes);
  }
}
