/** The loops of verify_tree and verify_upgrade, run on a changeset and a node queue. */
module Verifier {
  import opened Common
  import opened FlatTree
  import opened Hashes
  import opened Changesets
  import opened Verify

  class NodeQueue {
    var i: nat
    var nodes: seq<Node>
    var extra: Option<Node>
    var length: nat

    ghost predicate Valid()
      reads this
    {
      i <= |nodes| && length == Size(View())
    }

    ghost function View(): Queue
      requires i <= |nodes|
      reads this
    {
      Queue(nodes[i..], extra)
    }

    constructor (nodes: seq<Node>, extra: Option<Node>)
      ensures Valid() && View() == Queue(nodes, extra)
    {
      this.i, this.nodes, this.extra := 0, nodes, extra;
      this.length := |nodes| + if extra.Some? then 1 else 0;
    }

    method Shift(p: Pos) returns (r: Result<Node>)
      requires Valid()
      modifies this
      ensures match Verify.Shift(old(View()), p)
              case Ok((node, q)) => r == Ok(node) && Valid() && View() == q
              case Err(e) => r == Err(e)
    {
      if extra.Some? && extra.value.pos == p {
        var node := extra.value;
        extra := None;
        length := length - 1;
        return Ok(node);
      }
      if i >= |nodes| {
        return Err(InvalidOperation);
      }
      var node := nodes[i];
      i := i + 1;
      if node.pos != p {
        return Err(InvalidOperation);
      }
      length := length - 1;
      return Ok(node);
    }
  }

  method ClimbToRoot(q: NodeQueue, start: Node, cs: Changeset) returns (r: Result<Node>)
    requires q.Valid()
    modifies q, cs`nodes
    ensures match Climb(old(q.View()), start, old(cs.nodes))
            case Ok((root, nodes)) => r == Ok(root) && cs.nodes == nodes
            case Err(e) => r == Err(e)
  {
    ghost var result := Climb(q.View(), start, cs.nodes);
    var cur := start;
    while q.length > 0
      invariant q.Valid()
      invariant Climb(q.View(), cur, cs.nodes) == result
      decreases q.length
    {
      var sibling := q.Shift(Sibling(cur.pos));
      if sibling.Err? {
        return Err(sibling.error);
      }
      var parent := ParentNode(Parent(cur.pos), cur, sibling.value);
      cs.nodes := cs.nodes + [sibling.value, parent];
      cur := parent;
    }
    return Ok(cur);
  }

  method ClimbStart(q: NodeQueue, p: Pos, value: Option<Block>, cs: Changeset) returns (r: Result<Node>)
    requires q.Valid()
    modifies q, cs`nodes
    ensures match ClimbFrom(old(q.View()), p, value, old(cs.nodes))
            case Ok((root, nodes)) => r == Ok(root) && cs.nodes == nodes
            case Err(e) => r == Err(e)
  {
    var node;
    if value.Some? {
      node := BlockNode(p, value.value);
    } else {
      var first := q.Shift(p);
      if first.Err? {
        return Err(first.error);
      }
      node := first.value;
    }
    cs.nodes := cs.nodes + [node];
    r := ClimbToRoot(q, node, cs);
  }

  method VerifyTree(block: Option<DataBlock>, hash: Option<DataHash>, seek: Option<DataSeek>, cs: Changeset)
    returns (r: Result<Option<Node>>)
    requires cs.nodes == []
    modifies cs`nodes
    ensures match VerifyTreeSpec(block, hash, seek)
            case Ok((root, nodes)) => r == Ok(root) && cs.nodes == nodes
            case Err(e) => r == Err(e)
  {
    var untrusted := NormalizeData(block, hash);
    if untrusted.None? && (seek.None? || seek.value.nodes == []) {
      return Ok(None);
    }
    var root: Option<Node> := None;
    if seek.Some? && seek.value.nodes != [] {
      var q := new NodeQueue(seek.value.nodes, None);
      var seekRoot := ClimbStart(q, seek.value.nodes[0].pos, None, cs);
      if seekRoot.Err? {
        return Err(seekRoot.error);
      }
      root := Some(seekRoot.value);
    }
    if untrusted.Some? {
      var u := untrusted.value;
      var q := new NodeQueue(u.nodes, root);
      var blockRoot := ClimbStart(q, u.pos, u.value, cs);
      if blockRoot.Err? {
        return Err(blockRoot.error);
      }
      root := Some(blockRoot.value);
    }
    return Ok(root);
  }

  method GrowTo(q: NodeQueue, target: Pos, cs: Changeset) returns (r: Result<()>)
    requires q.Valid() && cs.roots != []
    modifies q, cs`length, cs`byteLength, cs`roots, cs`nodes, cs`upgraded
    ensures match Grow(old(cs.View()), old(q.View()), Last(old(cs.roots)).pos, target)
            case Ok((d, q')) => r.Ok? && q.Valid() && cs.View() == d && q.View() == q'
            case Err(e) => r == Err(e)
  {
    var it := cs.roots[|cs.roots| - 1].pos;
    ghost var result := Grow(cs.View(), q.View(), it, target);
    while it != target
      invariant q.Valid()
      invariant Grow(cs.View(), q.View(), it, target) == result
      decreases q.length
    {
      var node := q.Shift(Sibling(it));
      if node.Err? {
        return Err(node.error);
      }
      it := cs.AppendRoot(node.value, Sibling(it));
    }
    return Ok(());
  }

  method UpgradeToRoots(q: NodeQueue, b: nat, cs: Changeset) returns (r: Result<()>)
    requires q.Valid()
    modifies q, cs`length, cs`byteLength, cs`roots, cs`nodes, cs`upgraded
    ensures match RootsPhase(old(cs.View()), old(q.View()), b)
            case Ok((d, q')) => r.Ok? && q.Valid() && cs.View() == d && q.View() == q'
            case Err(e) => r == Err(e)
  {
    var grow := cs.roots != [];
    var i, s := 0, 0;
    ghost var result := RootsPhase(cs.View(), q.View(), b);
    while s < b
      invariant q.Valid()
      invariant UpgradeRoots(cs.View(), q.View(), i, grow, s, b) == result
      decreases b - s
    {
      var root := FullRoot(s, b);
      if i < |cs.roots| && cs.roots[i].pos == root {
        i := i + 1;
        s := Hi(root);
        continue;
      }
      if grow && i < |cs.roots| {
        grow := false;
        var grown := GrowTo(q, root, cs);
        if grown.Err? {
          return Err(grown.error);
        }
        s := Hi(root);
        continue;
      }
      grow := false;
      var node := q.Shift(root);
      if node.Err? {
        return Err(node.error);
      }
      var it := cs.AppendRoot(node.value, root);
      s := Hi(it);
    }
    return Ok(());
  }

  method AddSiblings(extra: seq<Node>, cs: Changeset) returns (i: nat, it: Pos)
    requires cs.roots != []
    modifies cs`length, cs`byteLength, cs`roots, cs`nodes, cs`upgraded
    ensures i <= |extra|
    ensures ExtraUp(old(cs.View()), extra, Last(old(cs.roots)).pos) == (cs.View(), extra[i..], it)
  {
    i, it := 0, cs.roots[|cs.roots| - 1].pos;
    ghost var result := ExtraUp(cs.View(), extra, it);
    while i < |extra|
      invariant i <= |extra|
      invariant ExtraUp(cs.View(), extra[i..], it) == result
      decreases |extra| - i
    {
      var sibling := Sibling(it);
      if extra[i].pos != sibling {
        return i, sibling;
      }
      assert extra[i..][1..] == extra[i + 1..];
      it := cs.AppendRoot(extra[i], sibling);
      i := i + 1;
    }
  }

  method Descend(from: Pos, target: Pos) returns (ok: bool)
    ensures ok == DescendsTo(from, target)
  {
    var it := from;
    while target != it
      invariant DescendsTo(it, target) == DescendsTo(from, target)
      decreases it.depth
    {
      if Factor(it) == 2 {
        LeafFactor(it);
        return false;
      }
      LeafFactor(it);
      it := LeftChild(it);
    }
    return true;
  }

  lemma {:induction false} LeafFactor(p: Pos)
    ensures Factor(p) == 2 <==> p.depth == 0
  {
    assert p.depth > 0 ==> HalfFactor(p) == 2 * Pow2(p.depth - 1);
  }

  method AddDescendants(extra: seq<Node>, from: nat, at: Pos, cs: Changeset) returns (r: Result<()>)
    requires from <= |extra|
    modifies cs`length, cs`byteLength, cs`roots, cs`nodes, cs`upgraded
    ensures match ExtraDown(old(cs.View()), extra[from..], at)
            case Ok(d) => r.Ok? && cs.View() == d
            case Err(e) => r == Err(e)
  {
    var i, it := from, at;
    ghost var result := ExtraDown(cs.View(), extra[i..], it);
    while i < |extra|
      invariant i <= |extra|
      invariant ExtraDown(cs.View(), extra[i..], it) == result
      decreases |extra| - i
    {
      var node := extra[i];
      assert extra[i..][0] == node && extra[i..][1..] == extra[i + 1..];
      i := i + 1;
      var found := Descend(it, node.pos);
      if !found {
        return Err(InvalidOperation);
      }
      it := cs.AppendRoot(node, node.pos);
      it := Sibling(it);
    }
    return Ok(());
  }

  method AddAdditional(extra: seq<Node>, cs: Changeset) returns (r: Result<()>)
    modifies cs`length, cs`byteLength, cs`roots, cs`nodes, cs`upgraded
    ensures match Additional(old(cs.View()), extra)
            case Ok(d) => r.Ok? && cs.View() == d
            case Err(e) => r == Err(e)
  {
    if cs.roots == [] {
      return Err(Panic);
    }
    var i, it := AddSiblings(extra, cs);
    r := AddDescendants(extra, i, it, cs);
  }

  lemma {:induction false} UpgradeInSteps(d: Draft, u: DataUpgrade, blockRoot: Option<Node>)
    ensures var a := RootsPhase(d, Queue(u.nodes, blockRoot), u.start + u.length);
            && (a.Err? ==> UpgradeSpec(d, u, blockRoot) == Err(a.error))
            && (a.Ok? ==> UpgradeSpec(d, u, blockRoot) == ThenAdditional(a.value.0, u.additionalNodes, a.value.1))
  {
  }

  function ThenAdditional(d: Draft, extra: seq<Node>, q: Queue): Result<(Draft, Queue)> {
    var b := Additional(d, extra);
    if b.Err? then Err(b.error) else Ok((b.value, q))
  }

  method RunUpgrade(upgrade: DataUpgrade, blockRoot: Option<Node>, cs: Changeset) returns (r: Result<Option<Node>>)
    modifies cs`length, cs`byteLength, cs`roots, cs`nodes, cs`upgraded
    ensures var s := UpgradeSpec(old(cs.View()), upgrade, blockRoot);
            if s.Ok? then r == Ok(s.value.1.extra) && cs.View() == s.value.0 else r == Err(s.error)
  {
    UpgradeInSteps(cs.View(), upgrade, blockRoot);
    var q := new NodeQueue(upgrade.nodes, blockRoot);
    var roots := UpgradeToRoots(q, upgrade.start + upgrade.length, cs);
    if roots.Err? {
      return Err(roots.error);
    }
    r := AddThen(upgrade.additionalNodes, q, cs);
  }

  method AddThen(extra: seq<Node>, q: NodeQueue, cs: Changeset) returns (r: Result<Option<Node>>)
    requires q.Valid()
    modifies cs`length, cs`byteLength, cs`roots, cs`nodes, cs`upgraded
    ensures var s := ThenAdditional(old(cs.View()), extra, q.View());
            if s.Ok? then r == Ok(s.value.1.extra) && cs.View() == s.value.0 else r == Err(s.error)
  {
    var added := AddAdditional(extra, cs);
    r := if added.Err? then Err(added.error) else Ok(q.extra);
  }

  /** True if the block's root was used up by the upgrade, or there was none. */
  method VerifyUpgrade(fork: nat, upgrade: DataUpgrade, blockRoot: Option<Node>, signed: set<Signable>, cs: Changeset)
    returns (r: Result<bool>)
    modifies cs
    ensures var s := UpgradeSpec(old(cs.View()), upgrade, blockRoot);
            if s.Err? then r == Err(s.error)
            else
              var d := s.value.0;
              if upgrade.signature.Some? && Verifies(signed, SignableOf(d.roots, d.length, fork),
                                                     upgrade.signature.value)
              then r == Ok(s.value.1.extra.None?) && cs.View() == d && cs.fork == fork
              && cs.signature == upgrade.signature
                   && cs.hash == Some(TreeHash(d.roots))
                   && cs.ancestors == old(cs.ancestors) && cs.batchLength == old(cs.batchLength)
              else r == Err(InvalidSignature)
  {
    var left := RunUpgrade(upgrade, blockRoot, cs);
    if left.Err? {
      return Err(left.error);
    }
    var verified := CheckSignature(fork, upgrade.signature, signed, cs);
    if verified.Err? {
      return Err(verified.error);
    }
    return Ok(left.value.None?);
  }

  method CheckSignature(fork: nat, signature: Option<Signature>, signed: set<Signable>,
                        cs: Changeset) returns (r: Result<()>)
    modifies cs`fork, cs`hash, cs`signature
    ensures if signature.Some? && Verifies(signed, SignableOf(cs.roots, cs.length, fork), signature.value)
            then r.Ok? && cs.fork == fork && cs.signature == signature && cs.hash == Some(TreeHash(cs.roots))
            else r == Err(InvalidSignature)
  {
    cs.fork := fork;
    r := cs.VerifyAndSetSignature(signature, signed);
  }
}
