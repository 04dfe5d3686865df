/**
 Hashes and Merkle nodes. BLAKE2b is taken as collision free: a hash is the
 term that was hashed. The leaf hash covers the data, the parent hash covers the
 summed byte length and both child hashes in index order, and the tree hash
 covers every root's hash, index and byte length.
 */
module Hashes {
  import opened Common
  import opened FlatTree

  datatype Hash =
    | LeafHash(data: Block)
    | ParentHash(size: nat, left: Hash, right: Hash)
    | TreeHash(roots: seq<Node>)

  /** A node of the tree; its flat index is kept as the position it denotes. */
  datatype Node = Node(pos: Pos, hash: Hash, length: nat)

  /** What is signed: the tree hash, the length in blocks and the fork. */
  datatype Signable = Signable(hash: Hash, length: nat, fork: nat)

  datatype Signature = Signature(signed: Signable)

  /** Signature check against the messages the holder of the key has signed. */
  predicate Verifies(signed: set<Signable>, message: Signable, signature: Signature) {
    signature.signed == message && message in signed
  }

  function BlockNode(p: Pos, value: Block): Node {
    Node(p, LeafHash(value), |value|)
  }

  /** `Hash::parent` orders the children by index, whatever order they are given in. */
  function ParentHashOf(a: Node, b: Node): Hash {
    if Index(a.pos) <= Index(b.pos)
    then ParentHash(a.length + b.length, a.hash, b.hash)
    else ParentHash(b.length + a.length, b.hash, a.hash)
  }

  function ParentNode(p: Pos, a: Node, b: Node): Node {
    Node(p, ParentHashOf(a, b), a.length + b.length)
  }

  // ---------------------------------------------------------------- the writer's tree

  function BlockAt(log: seq<Block>, i: nat): Block {
    if i < |log| then log[i] else []
  }

  /** Byte length of the blocks under `p`. */
  function BytesAt(log: seq<Block>, p: Pos): nat
    decreases p.depth
  {
    if p.depth == 0 then |BlockAt(log, p.offset)|
    else BytesAt(log, LeftChild(p)) + BytesAt(log, RightChild(p))
  }

  /** The recursive Merkle hash over the blocks under `p`. */
  function HashAt(log: seq<Block>, p: Pos): Hash
    decreases p.depth
  {
    if p.depth == 0 then LeafHash(BlockAt(log, p.offset))
    else ParentHash(BytesAt(log, p), HashAt(log, LeftChild(p)), HashAt(log, RightChild(p)))
  }

  /** The node the writer of `log` has at `p`. */
  function NodeAt(log: seq<Block>, p: Pos): Node {
    Node(p, HashAt(log, p), BytesAt(log, p))
  }

  function NodesAt(log: seq<Block>, ps: seq<Pos>): seq<Node> {
    seq(|ps|, i requires 0 <= i < |ps| => NodeAt(log, ps[i]))
  }

  lemma {:induction false} NodesAtConcat(log: seq<Block>, a: seq<Pos>, b: seq<Pos>)
    ensures NodesAt(log, a + b) == NodesAt(log, a) + NodesAt(log, b)
  {
  }

  lemma {:induction false} NodesAtOne(log: seq<Block>, p: Pos)
    ensures NodesAt(log, [p]) == [NodeAt(log, p)]
  {
  }

  function SignableOf(roots: seq<Node>, length: nat, fork: nat): Signable {
    Signable(TreeHash(roots), length, fork)
  }

  function WriterSignable(log: seq<Block>, n: nat, fork: nat): Signable {
    SignableOf(NodesAt(log, Roots(n)), n, fork)
  }

  function WriterSignature(log: seq<Block>, n: nat, fork: nat): Option<Signature> {
    Some(Signature(WriterSignable(log, n, fork)))
  }

  /** The key has signed nothing but trees over prefixes of `log`. */
  ghost predicate SignedOnly(signed: set<Signable>, log: seq<Block>) {
    forall s :: s in signed ==> exists n: nat, fork: nat :: n <= |log| && s == WriterSignable(log, n, fork)
  }

  /** `x` lies in the writer's tree and carries the writer's hash. */
  predicate Good(log: seq<Block>, x: Node) {
    Hi(x.pos) <= |log| && x.hash == HashAt(log, x.pos)
  }

  predicate AllGood(log: seq<Block>, s: seq<Node>) {
    forall x :: x in s ==> Good(log, x)
  }

  function TotalLength(s: seq<Node>): nat {
    if s == [] then 0 else TotalLength(s[..|s| - 1]) + s[|s| - 1].length
  }

  lemma {:induction false} TotalLengthSnoc(s: seq<Node>, x: Node)
    ensures TotalLength(s + [x]) == TotalLength(s) + x.length
  {
    assert (s + [x])[..|s|] == s;
  }

  lemma {:induction false} TotalLengthMerge(s: seq<Node>, x: Node)
    requires |s| >= 2 && x.length == s[|s| - 1].length + s[|s| - 2].length
    ensures TotalLength(s[..|s| - 2] + [x]) == TotalLength(s)
  {
    TotalLengthSnoc(s[..|s| - 2], x);
    assert s[..|s| - 1][..|s| - 2] == s[..|s| - 2];
  }

  lemma {:induction false} NodeFromChildren(log: seq<Block>, q: Pos)
    requires q.depth > 0
    ensures var l, r := NodeAt(log, LeftChild(q)), NodeAt(log, RightChild(q));
            ParentNode(q, l, r) == ParentNode(q, r, l) == NodeAt(log, q)
  {
    ChildOrder(q);
  }

  lemma {:induction false} ChildOrder(q: Pos)
    requires q.depth > 0
    ensures Index(LeftChild(q)) < Index(RightChild(q))
  {
    ChildSpans(q);
    IndexSpan(LeftChild(q));
    IndexSpan(RightChild(q));
  }

  /** Two siblings' parent, as the writer computes it. */
  lemma {:induction false} ParentOfSiblings(log: seq<Block>, p: Pos)
    ensures ParentNode(Parent(p), NodeAt(log, p), NodeAt(log, Sibling(p))) == NodeAt(log, Parent(p))
  {
    ParentOf(p);
    NodeFromChildren(log, Parent(p));
  }

  /** A parent with the writer's hash has children with the writer's hashes. */
  lemma {:induction false} GoodChildren(log: seq<Block>, a: Node, b: Node)
    requires b.pos == Sibling(a.pos)
    requires Good(log, ParentNode(Parent(a.pos), a, b))
    ensures Good(log, a) && Good(log, b)
    ensures a.length + b.length == BytesAt(log, Parent(a.pos))
  {
    ParentOf(a.pos);
    ChildOrder(Parent(a.pos));
    ParentSpan(a.pos);
  }
}
