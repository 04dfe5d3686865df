/** What accepted proofs make of a replica's tree, bits and stores. */
module ReplicaState {
  import opened Common
  import opened FlatTree
  import opened Hashes
  import opened Changesets
  import opened Verify
  import opened Prover
  import opened Soundness
  import opened Completeness
  import opened Lengths
  import opened Tops
  import opened MerkleTrees
  import opened Offsets
  import opened DynamicBitfields
  import opened Storage
  import opened Durability
  import opened CoreState

  /** Accepted nodes have the writer's lengths: the message is anchored, or it was made from the writer's nodes. */
  ghost predicate Exactly(log: seq<Block>, proof: Proof) {
    Anchored(proof) || ExactMessage(log, proof)
  }

  lemma {:induction false} AcceptedExactly(log: seq<Block>, t: Tree, proof: Proof, signed: set<Signable>)
    requires Trusted(log, t) && SignedOnly(signed, log) && VerifyProofSpec(t, proof, signed).Ok? && Exactly(log, proof)
    ensures AllExact(log, VerifyProofSpec(t, proof, signed).value.nodes)
  {
    if Anchored(proof) {
      AnchoredProofIsExact(log, t, proof, signed);
    } else {
      ExactMessageIsExact(log, t, proof, signed);
    }
  }

  lemma {:induction false} ExactNodesAt(log: seq<Block>, nodes: seq<Node>)
    requires AllExact(log, nodes)
    ensures nodes == NodesAt(log, PosSeq(nodes))
  {
  }

  /** The bits after a proof's block has arrived. */
  ghost function BitsWith(bits: iset<nat>, proof: Proof): iset<nat> {
    if proof.block.Some? then Marked(bits, proof.block.value.index, proof.block.value.index + 1, true) else bits
  }

  lemma {:induction false} LeavesStayKnown(view: View, nodes: seq<Node>, bits: iset<nat>, proof: Proof)
    requires forall i: nat :: i in bits ==> Leaf(i) in view
    requires proof.block.Some? ==> Leaf(proof.block.value.index) in AddNodes(view, nodes)
    ensures forall i: nat :: i in BitsWith(bits, proof) ==> Leaf(i) in AddNodes(view, nodes)
  {
    AddNodesView(view, nodes);
  }

  /** An accepted proof keeps the tree part of the writer's, with the block's leaf known. */
  lemma {:induction false} AcceptedKeepsFollowing(log: seq<Block>, t: Tree, proof: Proof, signed: set<Signable>,
                                                  bits: iset<nat>)
    requires FollowingTree(log, t, bits) && SignedOnly(signed, log)
    requires VerifyProofSpec(t, proof, signed).Ok? && Exactly(log, proof)
    ensures var d := VerifyProofSpec(t, proof, signed).value;
            FollowingTree(log, CommitSpec(t, d, proof.fork), BitsWith(bits, proof)) && Agrees(t.view, d.nodes)
  {
    var d := VerifyProofSpec(t, proof, signed).value;
    AcceptedExactly(log, t, proof, signed);
    ExactNodesAt(log, d.nodes);
    CommittedHonest(log, t, proof, signed, PosSeq(d.nodes));
    LeavesStayKnown(t.view, d.nodes, bits, proof);
  }

  /** Any accepted proof keeps the tree trusted, and agrees with it on every hash. */
  lemma {:induction false} AcceptedKeepsTrust(log: seq<Block>, t: Tree, proof: Proof, signed: set<Signable>)
    requires Trusted(log, t) && SignedOnly(signed, log) && VerifyProofSpec(t, proof, signed).Ok?
    ensures var d := VerifyProofSpec(t, proof, signed).value;
            Trusted(log, CommitSpec(t, d, proof.fork)) && HashAgrees(t.view, d.nodes) && t.length <= d.length
    ensures proof.block.Some? ==> proof.block.value.index < |log|
  {
    AcceptedProofIsSound(log, t, proof, signed);
    AcceptedIsGood(log, t, proof, signed);
  }

  lemma {:induction false} PutKeeps(data: map<nat, Byte>, log: seq<Block>, i: nat, j: nat)
    requires i < |log| && j < |log| && (j == i || Stored(data, ByteStart(log, j), log[j]))
    ensures Stored(WriteData(data, ByteStart(log, i), log[i]), ByteStart(log, j), log[j])
  {
    if j < i {
      RangesDisjoint(log, j, i);
    } else if i < j {
      RangesDisjoint(log, i, j);
    }
    forall k | ByteStart(log, j) <= k < ByteStart(log, j) + |log[j]|
      ensures var now := WriteData(data, ByteStart(log, i), log[i]); k in now && now[k] == log[j][k - ByteStart(log, j)]
    {
      WriteDataAt(data, ByteStart(log, i), log[i], k);
    }
  }

  /** A block put in its place, and no other block touched. */
  lemma {:induction false} BlockPut(data: map<nat, Byte>, log: seq<Block>, bits: iset<nat>, i: nat)
    requires Holds(data, log, bits) && i < |log|
    ensures Holds(WriteData(data, ByteStart(log, i), log[i]), log, Marked(bits, i, i + 1, true))
  {
    forall j | j in Marked(bits, i, i + 1, true)
      ensures j < |log| && Stored(WriteData(data, ByteStart(log, i), log[i]), ByteStart(log, j), log[j])
    {
      PutKeeps(data, log, i, j);
    }
  }

  // ---------------------------------------------------------------- where the block goes

  /** The lookup does not read past the tree's roots. */
  ghost predicate InRange(t: Tree, roots: seq<Node>, i: nat) {
    t.length == i || forall k :: 0 <= k < |roots| && HasLeaf(roots[k].pos, i) ==> k <= |t.roots|
  }

  /** The lookup finds the block's place. */
  predicate PlacedRight(t: Tree, roots: seq<Node>, i: nat) {
    t.length == i || SameBytesLeft(t, roots, i)
  }

  lemma {:induction false} FoundInRange(log: seq<Block>, t: Tree, n: nat, i: nat, r: Result<nat>)
    requires Found(log, t, NodesAt(log, Roots(n)), i, r) && i < n && t.length != i
    ensures if InRange(t, NodesAt(log, Roots(n)), i) then r.Ok? else r == Err(Panic)
  {
    var roots := NodesAt(log, Roots(n));
    var k := RootOver(n, i);
    assert HasLeaf(roots[k].pos, i) && FoundUnder(log, t, roots, i, k, r);
    OneRootOver(n, k, i);
  }

  /** The place of the proof's block, if it has one, is found. */
  predicate Placeable(seen: Tree, d: Draft, proof: Proof) {
    proof.block.Some? ==> PlaceIn(seen, proof.block.value.index, d.nodes, d.roots).Ok?
  }

  /** The block store with the proof's block at the place that is found for it. */
  function DataWith(data: map<nat, Byte>, seen: Tree, d: Draft, proof: Proof): map<nat, Byte>
    requires Placeable(seen, d, proof)
  {
    if proof.block.None? then data
    else WriteData(data, PlaceIn(seen, proof.block.value.index, d.nodes, d.roots).value, proof.block.value.value)
  }

  /** The block store changes if and as the place is found. */
  ghost predicate PutAsFound(was: map<nat, Byte>, now: map<nat, Byte>, seen: Tree, d: Draft, proof: Proof, done: bool) {
    if Placeable(seen, d, proof) then done && now == DataWith(was, seen, d, proof) else !done && now == was
  }

  lemma {:induction false} BlockIsWriters(log: seq<Block>, t: Tree, proof: Proof, signed: set<Signable>)
    requires Trusted(log, t) && SignedOnly(signed, log) && VerifyProofSpec(t, proof, signed).Ok? && proof.block.Some?
    ensures proof.block.value.index < |log| && log[proof.block.value.index] == proof.block.value.value
  {
    AcceptedProofIsSound(log, t, proof, signed);
  }

  ghost predicate BlockInRange(t: Tree, d: Draft, proof: Proof) {
    proof.block.Some? ==> InRange(t, d.roots, proof.block.value.index)
  }

  ghost predicate BlockPlacedRight(t: Tree, d: Draft, proof: Proof) {
    proof.block.Some? ==> PlacedRight(t, d.roots, proof.block.value.index)
  }

  lemma {:induction false} AcceptedIsExactChangeset(log: seq<Block>, t: Tree, proof: Proof, signed: set<Signable>,
                                                    d: Draft)
    requires Honest(log, t) && SignedOnly(signed, log) && VerifyProofSpec(t, proof, signed) == Ok(d)
             && Exactly(log, proof)
    requires proof.block.Some?
    ensures ExactChangeset(log, t, d.nodes, d.roots, proof.block.value.index, d.length)
  {
    AcceptedExactly(log, t, proof, signed);
    AcceptedIsGood(log, t, proof, signed);
    AcceptedIsClosed(t, proof, signed);
    AcceptedLeadsUp(t, proof, signed);
  }

  /** What an accepted proof makes of a tree. */
  ghost predicate Applied(t: Tree, proof: Proof, signed: set<Signable>, t': Tree) {
    var r := VerifyProofSpec(t, proof, signed);
    r.Ok? && t' == CommitSpec(t, r.value, proof.fork)
  }

  /** The proof is accepted, and its block, if any, is not looked for past the tree's roots. */
  ghost predicate Applicable(t: Tree, proof: Proof, signed: set<Signable>) {
    var r := VerifyProofSpec(t, proof, signed);
    r.Ok? && BlockInRange(t, r.value, proof)
  }

  /** ... and it is found in its place. */
  ghost predicate WellPlaced(t: Tree, proof: Proof, signed: set<Signable>) {
    var r := VerifyProofSpec(t, proof, signed);
    r.Ok? && BlockPlacedRight(t, r.value, proof)
  }

  /** An accepted proof's block is put where the lookup finds it; otherwise the block store stays. */
  ghost predicate Put(was: map<nat, Byte>, now: map<nat, Byte>, t: Tree, seen: Tree, proof: Proof,
                      signed: set<Signable>, done: bool) {
    var r := VerifyProofSpec(t, proof, signed);
    if r.Err? then !done && now == was else PutAsFound(was, now, seen, r.value, proof, done)
  }

  /** The header of an accepted upgrade is signed by the writer, whoever sent it. */
  lemma {:induction false} UpgradeIsSigned(log: seq<Block>, t: Tree, proof: Proof, signed: set<Signable>, h: Header)
    requires Trusted(log, t) && SignedOnly(signed, log) && VerifyProofSpec(t, proof, signed).Ok?
    requires var d := VerifyProofSpec(t, proof, signed).value;
             && h.length == d.length && h.fork == proof.fork && h.rootHash == Some(TreeHash(d.roots))
             && h.signature == Some(Signature(SignableOf(d.roots, d.length, proof.fork)))
    ensures HeaderSigned(log, h)
  {
    AcceptedIsGood(log, t, proof, signed);
  }

  // ---------------------------------------------------------------- the stores

  function UpdateOf(proof: Proof): Option<BitfieldUpdate> {
    if proof.block.Some? then Some(BitfieldUpdate(false, proof.block.value.index, 1)) else None
  }

  /** The entry that an accepted changeset is logged as. */
  function ChangeEntry(d: Draft, ancestors: nat, fork: nat, proof: Proof): Entry {
    Entry(d.nodes,
          if d.upgraded
          then Some(TreeUpgrade(fork, ancestors, d.length, Some(Signature(SignableOf(d.roots, d.length, fork))))) else None,
          UpdateOf(proof))
  }

  /** The entry of an accepted proof. */
  function EntryOf(t: Tree, proof: Proof, signed: set<Signable>): Entry {
    var r := VerifyProofSpec(t, proof, signed);
    if r.Ok? then ChangeEntry(r.value, t.length, proof.fork, proof) else Entry([], None, None)
  }

  /** What the stores stand for after an accepted proof. */
  ghost function WithProof(m: Meaning, d: Draft, proof: Proof): Meaning {
    Meaning(m.log, CommitSpec(m.tree, d, proof.fork), BitsWith(m.bits, proof))
  }

  /** The entry of an accepted proof with the writer's lengths fits the tree, and leads to the committed one. */
  lemma {:induction false} ChangeFits(m: Meaning, proof: Proof, signed: set<Signable>)
    requires FollowingTree(m.log, m.tree, m.bits) && SignedOnly(signed, m.log) && proof.fork == m.tree.fork
    requires VerifyProofSpec(m.tree, proof, signed).Ok? && Exactly(m.log, proof)
    ensures var d := VerifyProofSpec(m.tree, proof, signed).value;
            var e := ChangeEntry(d, m.tree.length, proof.fork, proof);
            && EntryFits(m.log, m.tree.view, m.tree.length, m.tree.fork, e)
            && TreeWith(m.log, m.tree, e) == CommitSpec(m.tree, d, proof.fork)
            && BitsUpdated(m.bits, e) == BitsWith(m.bits, proof)
  {
    var log, t, d := m.log, m.tree, VerifyProofSpec(m.tree, proof, signed).value;
    var e := ChangeEntry(d, t.length, proof.fork, proof);
    assert Honest(log, CommitSpec(t, d, proof.fork)) && AllExact(log, d.nodes) && t.length <= d.length by {
      AcceptedKeepsFollowing(log, t, proof, signed, m.bits);
      AcceptedKeepsTrust(log, t, proof, signed);
      AcceptedExactly(log, t, proof, signed);
    }
    assert proof.block.Some? ==> proof.block.value.index < |log| by {
      AcceptedKeepsTrust(log, t, proof, signed);
    }
    CommittedFits(log, t, d, proof.fork);
    EntryMarks(m.bits, e, proof);
  }

  lemma {:induction false} EntryMarks(bits: iset<nat>, e: Entry, proof: Proof)
    requires e.bitfield == UpdateOf(proof)
    ensures BitsUpdated(bits, e) == BitsWith(bits, proof)
  {
  }

  lemma {:induction false} CommittedFits(log: seq<Block>, t: Tree, d: Draft, fork: nat)
    requires Honest(log, t) && Honest(log, CommitSpec(t, d, fork)) && fork == t.fork && t.length <= d.length
    requires AllExact(log, d.nodes)
    ensures forall x :: x in d.nodes ==> Hi(x.pos) <= |log| && x == NodeAt(log, x.pos)
    ensures d.upgraded ==> d.length <= |log| && RootsIn(AddNodes(t.view, d.nodes), d.length)
    ensures d.upgraded ==> d.roots == NodesAt(log, Roots(d.length))
    ensures CommitSpec(t, d, fork) == TreeOver(log, if d.upgraded then d.length else t.length, fork,
                                               AddNodes(t.view, d.nodes))
  {
    HonestIsOver(log, t);
    HonestIsOver(log, CommitSpec(t, d, fork));
    AddNodesView(t.view, d.nodes);
    forall x | x in d.nodes
      ensures Hi(x.pos) <= |log|
    {
      assert x.pos in Positions(d.nodes);
    }
  }

  /** The writes for an accepted proof before the flush: the block, if there is one, then the entry. */
  function ProofWrites(place: nat, bytes: nat, e: Entry, proof: Proof): seq<StoreWrite> {
    BlockWrites(place, proof) + [WriteEntry(bytes, e)]
  }

  function BlockWrites(place: nat, proof: Proof): seq<StoreWrite> {
    if proof.block.Some? then [WriteBlocks(place, proof.block.value.value)] else []
  }

  lemma {:induction false} AfterProofWrites(d: Disk, place: nat, bytes: nat, e: Entry, proof: Proof)
    ensures AfterWrites(d, ProofWrites(place, bytes, e, proof))
            == if proof.block.None? then AfterWrite(d, WriteEntry(bytes, e))
               else AfterWrite(AfterWrite(d, WriteBlocks(place, proof.block.value.value)), WriteEntry(bytes, e))
  {
    var w := WriteEntry(bytes, e);
    if proof.block.Some? {
      var b := WriteBlocks(place, proof.block.value.value);
      AfterWritesSnoc(d, [], b);
      AfterWritesSnoc(d, [b], w);
      assert [] + [b] == [b];
    } else {
      AfterWritesSnoc(d, [], w);
    }
  }

  /** The block in its place alone changes nothing. */
  lemma {:induction false} BlockKeeps(d: Disk, m: Meaning, i: nat)
    requires Means(d, m) && i < |m.log|
    ensures Means(d.(data := WriteData(d.data, ByteStart(m.log, i), m.log[i])), m)
    ensures Holds(WriteData(d.data, ByteStart(m.log, i), m.log[i]), m.log, Marked(m.bits, i, i + 1, true))
  {
    BlockPut(d.data, m.log, m.bits, i);
    assert forall j :: j in m.bits ==> j in Marked(m.bits, i, i + 1, true);
  }

  /** With the block in its place, the logged entry moves the stores to what the proof leads to. */
  lemma {:induction false} ProofLogged(d: Disk, m: Meaning, m': Meaning, bytes: nat, e: Entry)
    requires Opens(d, m.log, m.tree, m.bits) && bytes == EntriesSize(d.entries.value)
    requires EntryFits(m.log, m.tree.view, m.tree.length, m.tree.fork, e) && m'.log == m.log
    requires m'.tree == TreeWith(m.log, m.tree, e) && m'.bits == BitsUpdated(m.bits, e) && Holds(d.data, m.log, m'.bits)
    ensures Means(LogEntry(d, bytes, e), m')
  {
    EntryLogged(d, m.log, m.tree, m.bits, bytes, e);
  }

  /** The entry `e` leads from `m` to `m'`, and the proof's block, if it has one, is the writer's. */
  ghost predicate LeadsTo(m: Meaning, m': Meaning, e: Entry, proof: Proof) {
    && EntryFits(m.log, m.tree.view, m.tree.length, m.tree.fork, e)
    && m'.log == m.log && m'.tree == TreeWith(m.log, m.tree, e)
    && m'.bits == BitsUpdated(m.bits, e) == BitsWith(m.bits, proof)
    && (proof.block.Some? ==>
          proof.block.value.index < |m.log| && m.log[proof.block.value.index] == proof.block.value.value)
  }

  function PlaceOf(log: seq<Block>, proof: Proof): nat {
    if proof.block.Some? then ByteStart(log, proof.block.value.index) else 0
  }

  lemma {:induction false} BlockThenEntry(d: Disk, m: Meaning, m': Meaning, bytes: nat, e: Entry, proof: Proof)
    requires Means(d, m) && bytes == EntriesSize(d.entries.value) && LeadsTo(m, m', e, proof) && proof.block.Some?
    ensures var w := WriteBlocks(PlaceOf(m.log, proof), proof.block.value.value);
            Means(AfterWrite(d, w), m) && Means(AfterWrite(AfterWrite(d, w), WriteEntry(bytes, e)), m')
  {
    var i := proof.block.value.index;
    BlockKeeps(d, m, i);
    ProofLogged(d.(data := WriteData(d.data, ByteStart(m.log, i), m.log[i])), m, m', bytes, e);
  }

  lemma {:induction false} OnlyEntry(d: Disk, m: Meaning, m': Meaning, bytes: nat, e: Entry, proof: Proof)
    requires Means(d, m) && bytes == EntriesSize(d.entries.value) && LeadsTo(m, m', e, proof) && proof.block.None?
    ensures Means(AfterWrite(d, WriteEntry(bytes, e)), m')
  {
    assert m'.bits == m.bits;
    assert AfterWrite(d, WriteEntry(bytes, e)) == LogEntry(d, bytes, e);
    ProofLogged(d, m, m', bytes, e);
  }

  /** Block first, entry second: at every point the stores stand for what was before or for what comes after. */
  lemma {:induction false} ProofIsSafe(d: Disk, m: Meaning, m': Meaning, bytes: nat, e: Entry, proof: Proof)
    requires Means(d, m) && bytes == EntriesSize(d.entries.value) && LeadsTo(m, m', e, proof)
    ensures CrashSafe(d, d, ProofWrites(PlaceOf(m.log, proof), bytes, e, proof), m, m')
  {
    var b := WriteEntry(bytes, e);
    if proof.block.Some? {
      var a := WriteBlocks(PlaceOf(m.log, proof), proof.block.value.value);
      BlockThenEntry(d, m, m', bytes, e, proof);
      TwoWritesSafe(d, AfterWrite(d, a), AfterWrite(AfterWrite(d, a), b), a, b, m, m');
      assert [a] + [b] == [a, b];
    } else {
      OnlyEntry(d, m, m', bytes, e, proof);
      OneWriteSafe(d, d, b, m, m');
      assert [] + [b] == [b];
    }
  }

  /** ... and in the end for what comes after. */
  lemma {:induction false} ProofMeans(d: Disk, m: Meaning, m': Meaning, bytes: nat, e: Entry, proof: Proof)
    requires Means(d, m) && bytes == EntriesSize(d.entries.value) && LeadsTo(m, m', e, proof)
    ensures Means(AfterWrites(d, ProofWrites(PlaceOf(m.log, proof), bytes, e, proof)), m')
  {
    AfterProofWrites(d, PlaceOf(m.log, proof), bytes, e, proof);
    if proof.block.Some? {
      BlockThenEntry(d, m, m', bytes, e, proof);
    } else {
      OnlyEntry(d, m, m', bytes, e, proof);
    }
  }

  /** The writes for an accepted proof with the writer's lengths, whose block is put in its place. */
  function AppliedWrites(m: Meaning, d: Draft, bytes: nat,
                         proof: Proof): seq<StoreWrite> {
    ProofWrites(PlaceOf(m.log, proof), bytes, ChangeEntry(d, m.tree.length, proof.fork, proof), proof)
  }

  lemma {:induction false} AppliedLeads(m: Meaning, proof: Proof, signed: set<Signable>)
    requires FollowingTree(m.log, m.tree, m.bits) && SignedOnly(signed, m.log) && proof.fork == m.tree.fork
    requires VerifyProofSpec(m.tree, proof, signed).Ok? && Exactly(m.log, proof)
    ensures var d := VerifyProofSpec(m.tree, proof, signed).value;
            LeadsTo(m, WithProof(m, d, proof), ChangeEntry(d, m.tree.length, proof.fork, proof), proof)
  {
    ChangeFits(m, proof, signed);
    if proof.block.Some? {
      BlockIsWriters(m.log, m.tree, proof, signed);
    }
  }

  /** They keep the stores standing for what is meant, at every point and in the end. */
  lemma {:induction false} AppliedIsDurable(d: Disk, m: Meaning, bytes: nat, proof: Proof, signed: set<Signable>)
    requires Means(d, m) && bytes == EntriesSize(d.entries.value) && FollowingTree(m.log, m.tree, m.bits)
    requires SignedOnly(signed, m.log) && proof.fork == m.tree.fork
    requires VerifyProofSpec(m.tree, proof, signed).Ok? && Exactly(m.log, proof)
    ensures var draft := VerifyProofSpec(m.tree, proof, signed).value;
            var ws := AppliedWrites(m, draft, bytes, proof);
            CrashSafe(d, d, ws, m, WithProof(m, draft, proof)) && Means(AfterWrites(d, ws), WithProof(m, draft, proof))
  {
    var draft := VerifyProofSpec(m.tree, proof, signed).value;
    var e := ChangeEntry(draft, m.tree.length, proof.fork, proof);
    AppliedLeads(m, proof, signed);
    ProofIsSafe(d, m, WithProof(m, draft, proof), bytes, e, proof);
    ProofMeans(d, m, WithProof(m, draft, proof), bytes, e, proof);
  }

  lemma {:induction false} AppliedIsCounted(d: Disk, place: nat, bytes: nat, e: Entry, proof: Proof)
    requires d.entries.Known? && bytes == EntriesSize(d.entries.value)
    ensures var now := AfterWrites(d, ProofWrites(place, bytes, e, proof));
            now.entries.Known? && bytes + EntrySize(e) == EntriesSize(now.entries.value)
  {
    AfterProofWrites(d, place, bytes, e, proof);
    EntriesSizeSnoc(d.entries.value, e);
  }
}
