# Hypercore: a verified model

Hypercore is a signed, append-only log of byte blocks. A writer appends blocks; a Merkle tree
over them is hashed and signed; a replica asks for blocks and for longer versions of the log
and checks the answers against the writer's key. A core keeps four stores: block data, tree
nodes, a bitfield of the blocks it holds, and an oplog that makes the other three recoverable.

This project models those parts of the Rust implementation in Dafny and proves how they fit
together. `dafny verify dfyconfig.toml` checks all of it.

## How the model is built

- **Positions** (`FlatTree.dfy`). A flat-tree node is kept as depth and offset. `Index` and `PosOf`
  are proved to be mutually inverse, and every iterator move is proved to be the index arithmetic
  of the flat-tree iterator, so a position stands for an index throughout.
- **Hashes and signatures** (`Hashes.dfy`). A hash is the term that was hashed, so hashing is
  injective. A signature verifies if it is over the checked message and the holder of the key has
  signed that message. `SignedOnly` says the key has signed only trees over prefixes of one log.
- **Tree** (`Changeset.dfy`, `Accumulator.dfy`, `MerkleTree.dfy`, `Offsets.dfy`). The accumulator, the
  tree object with its three node layers, byte offsets and seeking.
- **Proofs** (`Verify.dfy`, `Verifier.dfy`, `Prover.dfy`, `VerifyClosed.dfy`, `VerifyHonest.dfy`,
  `Soundness.dfy`, `Completeness.dfy`, `Lengths.dfy`, `Tops.dfy`). Each loop of the prover and the verifier is a
  method proved equal to a function on values; soundness and completeness are proved of those functions.
- **Bitfield** (`Words.dfy`, `FixedBitfield.dfy`, `DynamicBitfield.dfy`, `Persistence.dfy`). Word masks, pages, the page
  map, and what of it survives in the store.
- **Oplog** (`Encoding.dfy`, `HeaderEncoding.dfy`, `Encoder.dfy`, `Oplog.dfy`, `OplogRead.dfy`, `OplogFile.dfy`,
  `Framing.dfy`, `LoggedDisk.dfy`). The entry and header codecs on bytes, frames with checksums, the two header slots, opening, and the
  file as the image of a core's journal. The checksum is a parameter, and so is how hashes and signatures look as bytes.
- **Core** (`Storage.dfy`, `Durability.dfy`, `CoreState.dfy`, `Core.dfy`, `Hints.dfy`, `Recovery.dfy`,
  `Schedule.dfy`, `Runs.dfy`). The state
  machine over the four stores. Every write to a store goes through `Hypercore.Store` and is journaled there, one store
  write per entry. `Durable(d, log, t, bits)` says that the stores `d` stand for the tree `t` of the writer's log `log` with the
  blocks `bits` held; `Recovery.Open` is the proof that opening `d` gives exactly that, for a writer and for a replica.
  `Tracking` is what every core keeps whatever it is sent, `Valid` what a writer's core and `Following` what a replica keeps;
  `Signs` says that tree and header carry the writer's signature and tree hash of their length.
- **Replica** (`ReplicaState.dfy`, `Replica.dfy`, `ReplicaRuns.dfy`, `Misplaced.dfy`). Proofs applied to a whole core, its stores
  and its journal.
- **Overwritten entries** (`Overwrites.dfy`, `Reopened.dfy`). A log in which an entry was written over others is either known,
  if the new entry ends where another one ended, or garbled from some point on (`Storage.Logged`).

Main results, each over all inputs or all runs:

- a proof that is accepted, whoever made it, carries the writer's block and the writer's signed roots, and
  the trust invariant survives every run of received proofs (`AcceptedProofIsSound`, `ReceiveIsSafe`);
- any honest core, the writer or a replica of any length, answers a block and upgrade request that a replica forms with
  `missing_nodes` if and only if it knows every position that the answer needs, and every answer is accepted and brings
  the replica to the answering core's roots (`ProverAnswers`, `ReplicationSucceeds`); on whole cores the answer comes from the
  core's own tree and signature, and the replica stores the block in its place whenever the code finds that place, so
  that it reads back the writer's blocks (`Replication.Answer`, `Replication.Fetch`, `Replication.Get`);
- every core keeps the writer's signature and tree hash of its length in tree and header, through appends, clears, received
  proofs and flushes, and opening its stores gives them back (`Hypercore.SignedWhole`, `ReplicaState.UpgradeIsSigned`,
  `Recovery.Open`);
- a clear, on a writer's core or a replica's, deletes exactly the bytes between the nearest held blocks, in which no block
  is held, and does so if and only if that hole starts inside the tree and its last block is known (`Hypercore.Clear`);
- any run of appends, clears and reopens behaves like a plain sequence of optional blocks (`Runs.Run`), unless a clear fails
  while there are logged entries that the core has not counted; when that is so is computed from the steps alone
  (`Runs.ScheduleOf`);
- any run of a replica in which anchored proofs arrive, whoever made them, blocks are cleared and restarts happen ends with
  exactly the tree and the blocks of a replica that forgets nothing (`ReplicaRuns.RunReplica`), as long as the code finds the
  place of each block and no clear fails over entries that the core has not counted;
- a crash before, between or after any store writes of an append, a clear or an applied proof leaves stores that open to the
  state before or after it (`Hypercore.AppendBatch`, `Hypercore.Clear`, `Replication.VerifyAndApplyProof`), outside the window
  between the header write and the truncation, if the core's counter of logged bytes is right;
- a core's journal, written to the oplog's file write by write, leaves at every point a file that opens to the header and
  the entries of the core's stores at that point, also when entries are written over others (`JournalRefines`,
  `CrashedFileOpens`), and the file fixes both as long as no two hashes or signatures collide (`FileFixesDisk`);
- the contiguous length is the first index whose bit is not set, in any run of appends, clears and received proofs,
  whoever made the proofs (`Runs.RunMixed`);
- opening an oplog file after any run gives the newest header, its bits and the entries since (`OplogFiles.RunOpens`);
- opening a file of any bytes: it gives exactly the entries of the frames with right checksums that follow one another behind
  the slots, passes over a rest that is too short for a frame, and reports a frame with another checksum
  (`OplogFiles.EntriesAreRead`); the header is that of the frame that counts, with its bits (`OplogFiles.HeaderIsRead`).

Properties that the code does not have, each with an input that shows it and the condition under which it holds:

- flushed bits come back on opening if and only if nothing was ever written behind the first page of the store and no
  bit is at 8192 or above (`FlushedBitsComeBack`); a page with bit 8192 comes back twice (`Bit8192ComesBackTwice`), and a
  bit at 40000 that was set and cleared again makes the store impossible to open (`ClearedBitBlocksOpening`);
- opening sets the counter of logged entry bytes to 0 whatever is logged, so the next entry is written over the first ones
  (`FirstEntryOverwritten`). A flush makes up for it if the operation completes and nothing crashes in between. So a right
  counter is enough for crash safety, and a right counter or a clear that completes for durable stores (`Hypercore.AppendBatch`,
  `Hypercore.Clear`). It is not necessary: the same clear again changes nothing (`SameEntryAgain`, `OnlyEntryRepeated`). What
  the log becomes is exact for every write (`WriteRefines`), and for entries over logged clears so is the condition: a crash
  after a clear is harmless if and only if the remaining entries lead to the bits before or after it and those blocks are
  there (`CrashAfterClear`), and a crash after an append if and only if they lead to the bits after it (`CrashAfterAppend`).
  Two runs that do harm: a core with a logged append that is reopened and then cleared past its end has lost that append
  (`LoggedAppendLost`); and after a logged clear of block 0, a reopen, a clear of block 1 and a crash, the stores open
  without any error, with block 0 marked as held and its bytes gone (`ClearedBlockComesBack`), since an entry of the same
  size replaces the first one without a trace (`FirstEntryReplaced`);
- the contiguous length after a replay is right if and only if no replayed clear that ended before it dropped a block below
  the final one that no later entry set again (`ReplayedHintIsRight`, for one clear `ReplayedHint`, the input `StaleHint`);
- `byte_offset_in_changeset` adds up the old tree's roots instead of the changeset's. For an accepted changeset, with exact
  lengths in the tree and the changeset, its result is right if and only if the two sums agree (`PlaceIsFound`). A replica
  has exact lengths as long as only anchored proofs, without seek, bare hash and additional nodes, have been applied
  (`AnchoredRunIsHonest`), so for such a replica equal sums decide (`PlacedExactly`). A replica of three one-byte blocks that
  upgrades to six and asks for block 4 puts it over block 2 without any error (`BlockOverwritten`), and an empty replica that
  asks for the last of three blocks reads past its roots (`LastOfThreeBlocks`), both with proofs that are accepted. After a
  bare hash with shifted lengths an anchored proof for block 1 is put one byte too far although the sums agree
  (`PlacedOneTooFar`);
- acceptance does not fix the byte length of every node, since a parent's hash covers only the sum of its
  children's lengths. It does for every proof without seek, without a bare hash and without additional nodes, which a
  receiver can see (`AnchoredProofIsExact`); for each of the three there is an accepted proof with wrong lengths
  (`SeekIsNotBound`, `HashIsNotBound`, `LengthsAreNotBound`).

The comment above `get_next_header_oplog_slot_and_bit_value` labels the bit states by the slot written next, not
by the slot that holds the newest header; the model follows the code.

## Model

| member | source | states |
|---|---|---|
| FlatTree.IteratorIndex | src/tree/merkle_tree.rs:1333-1335 | a position's flat index is offset * factor + factor / 2 - 1 |
| FlatTree.IteratorMoves | src/tree/merkle_tree.rs:1359-1393 | sibling and parent moves are the iterator's additions and subtractions of its factor |
| FlatTree.PosOfIndex | src/tree/merkle_tree.rs:1333-1335 | a position is recovered from its index |
| FlatTree.IndexOfPosOf | src/tree/merkle_tree.rs:1333-1335 | every index is the index of its position |
| FlatTree.RootsStep | src/tree/merkle_tree_changeset.rs:66-91 | attaching a subtree at an odd offset follows its sibling among the roots, at an even one it becomes the last root |
| FlatTree.RootsMaximal | src/tree/merkle_tree.rs:1465-1469 | no full root can grow within the length |
| FlatTree.PathIsRoots | src/tree/merkle_tree.rs:1465-1469 | walking full_root and next_tree from any root boundary visits exactly the remaining full roots |
| Hashes.GoodChildren | src/crypto/hash.rs:143-164 | a parent with the writer's hash has children with the writer's hashes, and only the sum of their lengths is fixed |
| Hashes.ParentOfSiblings | src/crypto/hash.rs:143-164 | the parent of the writer's siblings is the writer's, whichever child is given first |
| Changesets.Changeset.AppendRoot | src/tree/merkle_tree_changeset.rs:66-91 | the merging loop computes the merged roots, emitted nodes and final iterator of the specification |
| Changesets.Changeset.Append | src/tree/merkle_tree_changeset.rs:56-64 | one block is attached as a leaf at the end |
| Changesets.Changeset.HashAndSign | src/tree/merkle_tree_changeset.rs:94-101 | hash and signature are over the current roots, length and fork |
| Changesets.Changeset.VerifyAndSetSignature | src/tree/merkle_tree_changeset.rs:103-120 | accepts exactly the signatures that parse and verify, and changes nothing otherwise |
| Changesets.AppendRootGood | src/tree/merkle_tree_changeset.rs:66-91 | if the roots after attaching have the writer's hashes, so had all roots and nodes before |
| Changesets.AppendRootTotal | src/tree/merkle_tree_changeset.rs:66-91 | the byte length keeps pace with the roots |
| Changesets.AppendRootClosed | src/tree/merkle_tree_changeset.rs:66-91 | every known node that is not a root keeps sibling and parent known |
| Changesets.AppendRootHonest | src/tree/merkle_tree_changeset.rs:66-91 | the writer's next subtree leads to the writer's next roots and emits exactly the completed nodes |
| Accumulator.EmittedExactly | src/tree/merkle_tree_changeset.rs:56-91 | appending blocks m to n emits exactly the subtrees that end in them |
| Accumulator.EmittedInOrder | src/tree/merkle_tree_changeset.rs:56-91 | emitted nodes come strictly ordered, so each once |
| Accumulator.ChildrenBefore | src/tree/merkle_tree_changeset.rs:66-91 | in that order children precede their parent |
| Accumulator.EmittedCount | src/tree/merkle_tree_changeset.rs:56-91 | n appends from empty emit 2n nodes less the number of roots |
| Accumulator.AppendBatch | src/core.rs:286-292 | the changeset of a batch has the roots, byte length and emitted nodes of the recursive tree over the longer log |
| Accumulator.NodeAtStable | src/tree/merkle_tree_changeset.rs:66-91 | appending never changes a complete node |
| Verifier.NodeQueue.Shift | src/tree/merkle_tree.rs:1592-1615 | hands out the extra node when its index is asked for, else the next node if its index matches, else an error |
| Verifier.VerifyTree | src/tree/merkle_tree.rs:1337-1397 | the climbing loops compute the root and the nodes of the specification, with the same errors |
| Verifier.UpgradeToRoots | src/tree/merkle_tree.rs:1399-1434 | the walk over the full roots shares, grows or takes roots as specified |
| Verifier.AddAdditional | src/tree/merkle_tree.rs:1435-1458 | additional nodes are attached as siblings, then as left descendants |
| Verifier.VerifyUpgrade | src/tree/merkle_tree.rs:1399-1463 | the upgrade's draft, whether the block root was used, and acceptance exactly of verifying signatures |
| Verify.UpgradeVouches | src/tree/merkle_tree.rs:1399-1463 | final roots with the writer's hashes vouch for every node an upgrade carried and for a consumed block root |
| Verify.ClimbGood | src/tree/merkle_tree.rs:1380-1393 | a climb that ends in the writer's hash met only the writer's hashes |
| Verify.VerifyTreeGood | src/tree/merkle_tree.rs:1337-1397 | a root with the writer's hash fixes the block's value and every node hash |
| Verify.AcceptedUsesAll | src/tree/merkle_tree.rs:1337-1458 | no node of a block, hash or seek and no additional node of an accepted proof is passed over |
| VerifyClosed.UpgradeExtends | src/tree/merkle_tree.rs:1399-1463 | upgrades keep the known nodes closed under sibling and parent |
| VerifyClosed.VerifyTreeLinked | src/tree/merkle_tree.rs:1337-1397 | the nodes met on a climb are linked up to its root |
| VerifyHonest.ClimbHonest | src/tree/merkle_tree.rs:1380-1393 | the writer's siblings lead the climb to the writer's ancestor |
| VerifyHonest.HashHonest | src/tree/merkle_tree.rs:1376-1393 | so do the writer's nodes of a bare hash |
| VerifyHonest.SeekHonest | src/tree/merkle_tree.rs:1350-1374 | so do the writer's nodes of a seek |
| VerifyHonest.SeekWithBlockHonest | src/tree/merkle_tree.rs:1350-1393 | a seek whose root is a sibling above a block stands in for that sibling |
| VerifyHonest.UpgradeHonest | src/tree/merkle_tree.rs:1399-1456 | the writer's path nodes lead an upgrade, additional nodes included, to the writer's roots |
| Soundness.SignedRoots | src/tree/merkle_tree_changeset.rs:103-130 | a signed tree hash fixes the roots and the length |
| Soundness.AcceptedIsGood | src/tree/merkle_tree.rs:509-563 | what acceptance says about roots, length, byte length, node hashes and the block |
| Soundness.AcceptedIsClosed | src/tree/merkle_tree.rs:509-563 | accepted nodes keep the tree closed |
| Soundness.AcceptedProofIsSound | src/tree/merkle_tree.rs:509-563 | any accepted proof carries the writer's block, and committing it keeps the tree trusted with the block's leaf known |
| Soundness.CommitKeepsTrust | src/tree/merkle_tree.rs:133-155 | commit keeps the trust invariant and adds exactly the changeset's positions |
| Soundness.ReceiveIsSafe | src/core.rs:490-498 | after any run of received proofs the tree is trusted |
| Soundness.KnownUnderRoot | src/tree/merkle_tree.rs:715-765 | every known node lies under a root |
| Lengths.AnchoredProofIsExact | src/tree/merkle_tree.rs:1337-1463 | any accepted proof without seek, bare hash or additional nodes brings only nodes with the writer's lengths, upgrades included |
| Lengths.ExactMessageIsExact | src/tree/merkle_tree.rs:509-563 | the nodes of a writer's own answer lead only to the writer's nodes, additional nodes included |
| Lengths.LengthsAreNotBound | src/tree/merkle_tree.rs:1435-1458 | an accepted upgrade with an additional node whose leaf lengths are not the writer's |
| Lengths.HashIsNotBound | src/tree/merkle_tree.rs:1380-1393 | an accepted bare hash whose leaf lengths are not the writer's |
| Lengths.SeekIsNotBound | src/tree/merkle_tree.rs:1350-1374 | an accepted seek whose leaf lengths are not the writer's |
| Tops.AcceptedLeadsUp | src/tree/merkle_tree.rs:509-563 | in any accepted changeset every node is followed by its parent, unless it is a new root or was known |
| Prover.NodesToRoot | src/tree/merkle_tree.rs:1544-1557 | climbs the requested number of levels, or fails when the node leaves the tree |
| Prover.BlockProof | src/tree/merkle_tree.rs:1010-1066 | the siblings on the way from the block to the requested root, in order |
| Prover.UpgradeProof | src/tree/merkle_tree.rs:1110-1298 | the upgrade loops visit exactly the greedy path from the old to the new length |
| Prover.CreateValuelessProof | src/tree/merkle_tree.rs:333-506 | block and upgrade requests are answered, or refused, as specified |
| Completeness.MissingNodes | src/tree/merkle_tree.rs:566-598 | the least number of climbs to a known ancestor, found for every node of the tree, and 0 outside it |
| Completeness.ClimbMeetsKnown | src/tree/merkle_tree.rs:566-598 | in a trusted tree every climb meets a known ancestor before it leaves the tree |
| Completeness.ProverExact | src/tree/merkle_tree.rs:333-506 | a prover with the writer's nodes answers anything it is asked if and only if it knows what the answer needs, and then node by node with the writer's |
| Completeness.ProverAnswers | src/tree/merkle_tree.rs:333-506 | so for the requests of replicas, with what arrives at the replica |
| Completeness.Refused | src/tree/merkle_tree.rs:351-372 | empty and too long requests, and upgrades of an unsigned tree, are refused |
| Completeness.WriterAnswers | src/tree/merkle_tree.rs:333-506 | the writer knows what every answer to a replica that is not longer needs |
| Completeness.TreeProofAccepted | src/tree/merkle_tree.rs:509-563 | without an upgrade a proof is accepted if and only if it leads to the hash of a known node |
| Completeness.UpgradeProofAccepted | src/tree/merkle_tree.rs:509-563 | the answer with an upgrade is accepted and leads to the writer's length |
| Completeness.BlockProofAccepted | src/tree/merkle_tree.rs:509-563 | the answer without an upgrade is accepted |
| Completeness.ReplicationSucceeds | src/tree/merkle_tree.rs:333-563 | request, answer, verification and commit between any two honest cores of a fork: an answer if and only if the answering core knows the positions it needs, every answer accepted, and the asking core then has the other's roots and the block's leaf |
| Offsets.OffsetIsStart | src/tree/merkle_tree.rs:715-765 | the walk past the roots and down never fails for a known node of a trusted tree, refuses exactly what lies past the end, and with exact nodes gives the summed length of the blocks before |
| Offsets.ByteOffset | src/tree/merkle_tree.rs:715-765 | the loops compute that walk |
| Offsets.KnownPath | src/tree/merkle_tree.rs:715-765 | in a trusted tree every node on the way to a known node is known |
| Offsets.NextPathKnown | src/tree/merkle_tree.rs:715-765 | the way to the block after a known one is known |
| Offsets.BlockRange | src/tree/merkle_tree.rs:168-213 | succeeds if and only if the block's leaf and the way to it are known; with exact nodes it is the block's range |
| Offsets.RangesDisjoint | src/tree/merkle_tree.rs:168-213 | ranges of different blocks do not overlap |
| Offsets.RangesCover | src/tree/merkle_tree.rs:168-213 | every byte lies in the range of a block |
| Offsets.TotalBytes | src/tree/merkle_tree.rs:44-123 | the roots' lengths add up to the log's |
| Offsets.SeekTrustedTree | src/tree/merkle_tree.rs:914-959 | in any tree with exact nodes the descent ends at a node that ends at the byte, at the leaf that holds it, or above the unknown left child that hides it |
| Offsets.SeekFromHead | src/tree/merkle_tree.rs:869-911 | the same from the head for every byte; it fails if and only if a root before the byte is unknown |
| Offsets.InsideClimbs | src/tree/merkle_tree.rs:231-251 | the climb through a changeset's nodes ends at a top of the list and, with exact lengths, gives the block's start inside it |
| Offsets.PlaceIsFound | src/tree/merkle_tree.rs:226-273 | for every changeset with exact lengths in it and in the tree: what the lookup gives, when it is out of range, and that it is right if and only if the summed roots have the same bytes |
| Offsets.ByteOffsetInChangeset | src/tree/merkle_tree.rs:226-273 | the loops compute that lookup |
| Offsets.SharedExactly | src/tree/merkle_tree.rs:226-273 | the roots left of a new root are the tree's own if and only if that root starts within the old tree |
| Misplaced.AnchoredRunIsHonest | src/core.rs:490-498 | while only anchored proofs are received, every known length is the writer's |
| Misplaced.PlacedExactly | src/tree/merkle_tree.rs:226-273 | for a replica that received only anchored proofs, in any number, the next block is placed right if and only if the two sums agree |
| Misplaced.PlacedOneTooFar | src/tree/merkle_tree.rs:226-273 | after an accepted bare hash with shifted lengths an accepted anchored proof is placed one byte too far although the sums agree |
| Misplaced.WriterSendsThis | src/tree/merkle_tree.rs:333-506 | the proofs of the next two rows are what the writer's prover gives |
| Misplaced.BlockOverwritten | src/tree/merkle_tree.rs:259-261 | the lookup of an accepted proof puts block 4 of 6 at byte 2 instead of byte 4 |
| Misplaced.LastOfThreeBlocks | src/tree/merkle_tree.rs:259-261 | the lookup of an accepted proof reads past the tree's roots |
| MerkleTrees.MerkleTree.Lookup | src/tree/merkle_tree.rs:794-867 | cache, unflushed nodes and store answer as one map; after accepted proofs of any make at least the hashes are one |
| MerkleTrees.MerkleTree.Evict | src/tree/merkle_tree.rs:794-806 | dropping cached nodes changes no lookup |
| MerkleTrees.MerkleTree.Commit | src/tree/merkle_tree.rs:133-155 | refuses exactly changesets of another fork and upgrades of another length; else length, roots, fork, signature and nodes are the changeset's and the layers stay coherent |
| MerkleTrees.MerkleTree.AddNode | src/tree/merkle_tree.rs:275-277 | one node is added to the map |
| MerkleTrees.MerkleTree.FlushNodes | src/tree/merkle_tree.rs:658-675 | hands out every unflushed node; writing them changes no lookup |
| MerkleTrees.MerkleTree.Truncate | src/tree/merkle_tree.rs:279-327 | the changeset at a longer length has that length's roots, kept or looked up |
| MerkleTrees.MerkleTree.VerifyProof | src/tree/merkle_tree.rs:509-563 | accepts and refuses as specified |
| MerkleTrees.OpenTree | src/tree/merkle_tree.rs:44-123 | reads the roots of the header's length, or fails exactly if one is missing |
| FixedBitfields.SetRange | src/bitfield/fixed.rs:91-132 | masked word writes set exactly the range, and `changed` tells whether a bit flipped |
| FixedBitfields.IndexOf | src/bitfield/fixed.rs:135-137 | first index at or after the position with the value |
| FixedBitfields.LastIndexOf | src/bitfield/fixed.rs:140-142 | last index at or before the position with the value |
| FixedBitfields.ToBytes | src/bitfield/fixed.rs:49-60 | the page's bytes |
| FixedBitfields.WordOfBytes | src/bitfield/fixed.rs:29-60 | a word read back from the page's bytes is the word |
| DynamicBitfields.DynamicBitfield.Get | src/bitfield/dynamic.rs:87-97 | the bit of the page map, unset where no page exists |
| DynamicBitfields.DynamicBitfield.SetRange | src/bitfield/dynamic.rs:134-167 | changes exactly the bits of the range and lists every changed page once |
| DynamicBitfields.DynamicBitfield.Update | src/bitfield/dynamic.rs:126-131 | applies a logged update |
| DynamicBitfields.DynamicBitfield.IndexOfSet | src/bitfield/dynamic.rs:170-195 | the least set index at or after the position over all pages, or none |
| DynamicBitfields.DynamicBitfield.LastIndexOfSet | src/bitfield/dynamic.rs:217-247 | the greatest set index at or before the position over all pages, or none |
| DynamicBitfields.DynamicBitfield.Flush | src/bitfield/dynamic.rs:71-84 | every listed page is written whole at its offset, and nothing stays listed |
| DynamicBitfields.FromData | src/bitfield/fixed.rs:29-46 | what a page reads from the store, and when it reads out of range |
| DynamicBitfields.OpenPages | src/bitfield/dynamic.rs:23-68 | one page per 1024 bytes; fails exactly for more than one stored page |
| Persistence.FlushedBitsComeBack | src/bitfield/dynamic.rs:23-84 | for any pages, listed pages and store, flushed bits come back if and only if store and listed pages stay within the first page and no bit is at 8192 or above |
| Persistence.WritesKeepPersisted | src/bitfield/dynamic.rs:134-167 | range writes keep unlisted pages equal to the stored ones |
| Persistence.FlushPersists | src/bitfield/dynamic.rs:71-84 | a flush leaves every page stored |
| Persistence.ClearedBitBlocksOpening | src/bitfield/dynamic.rs:43-52 | a bitfield without a set bit, in which bit 40000 was set and cleared, flushes to a store that does not open |
| Persistence.SetAndClear | src/bitfield/dynamic.rs:134-167 | setting and clearing a bit leaves such a bitfield |
| DynamicBitfields.Bit8192ComesBackTwice | src/bitfield/dynamic.rs:43-52 | a flushed page that opens with its bit on two pages |
| Encoding.NodeRoundTrip | src/encoding.rs:59-78 | a node is read back, and the cursor stands behind it |
| Encoding.SeqRoundTrip | src/encoding.rs:80-107 | so is a counted sequence |
| Encoding.EntryRoundTrip | src/oplog/entry.rs:86-164 | an entry with any combination of parts is read back exactly |
| Encoding.IntegersAreBytes | src/encoding.rs:59-78 | markers and byte order of encoded integers |
| Encoding.EntryIsBytes | src/oplog/entry.rs:104-127 | an entry with every part, byte by byte |
| Encoders.Preencode | src/oplog/entry.rs:87-102 | the reserved space is the encoded length |
| Encoders.Encoder.PutEntry | src/oplog/entry.rs:104-127 | writing the parts and then the flags leaves the encoding in the buffer and nothing else changed |
| Encoders.GetEach | src/encoding.rs:99-106 | the reading loop decodes as specified |
| Framing.PrependLeader | src/oplog/mod.rs:405-429 | the data becomes a frame; the cursor ends before the data |
| Framing.FrameEntry | src/oplog/mod.rs:282-316 | one entry is sized, encoded and framed in one buffer |
| Framing.EntryCodecReadsBack | src/oplog/entry.rs:86-164 | the entry codec meets the law the oplog asks for |
| HeaderEncoding.HeaderRoundTrip | src/oplog/header.rs:193-252 | a header with its manifest, key pair, tree and hints is read back exactly |
| Framing.OplogFormatIsSound | src/oplog/header.rs:193-252 | the two codecs, with any 32-bit checksum, meet everything the oplog asks for |
| Framing.FrameSize | src/oplog/mod.rs:310-313 | the bytes counted for an entry are the bytes of its frame |
| LoggedDisk.OplogFormatSuits | src/oplog/header.rs:193-252 | the oplog's own format meets what the following rows require, however hashes and signatures look as bytes |
| LoggedDisk.WritesAreSteps | src/oplog/mod.rs:255-316 | the core's header write and truncation are the oplog's flush, its entry write the oplog's append |
| LoggedDisk.CreatedRepresents | src/oplog/mod.rs:318-336 | a new file stands for the stores of a new core |
| LoggedDisk.WriteRefines | src/oplog/mod.rs:255-316 | every write of a core, also one over other entries, is its write to the file, and the file then stands for the stores after it |
| LoggedDisk.JournalRefines | src/core.rs:276-454 | any journal of a core, written to the file write by write, leaves a file that stands for the core's stores |
| LoggedDisk.CrashedFileOpens | src/oplog/mod.rs:88-171 | after any number of those writes the file opens to the header and the entries of the stores at that point; if the log is garbled, opening the entries fails or finds the known ones first |
| LoggedDisk.FileFixesDisk | src/oplog/mod.rs:88-171 | two states of the stores with the same file have the same header and entries, if no hashes or signatures collide |
| LoggedDisk.FirstEntryOverwritten | src/oplog/mod.rs:121-125 | after an entry is written over the first one, opening fails or finds the new entry first |
| LoggedDisk.FirstEntryReplaced | src/oplog/mod.rs:121-125 | if the new entry has the size of the first one, opening finds it in the other's place without any error |
| LoggedDisk.OnlyEntryRepeated | src/oplog/mod.rs:121-125 | the only entry written again leaves a file that stands for the same stores |
| LoggedDisk.OpensAsDisk | src/oplog/mod.rs:88-171 | opening the file gives the header and entries the core is opened from, whatever was written over |
| Oplogs.FrameIsFound | src/oplog/mod.rs:433-471 | a written frame is validated with its bits and its data |
| Oplogs.ScanFrames | src/oplog/mod.rs:152-164 | scanning finds exactly the framed entries, in order |
| OplogReads.LeaderIsRead | src/oplog/mod.rs:433-490 | at any index of any file: a frame with the right checksum is read with its bits and data, one with another is reported, anything shorter is nothing |
| OplogReads.ScanFinds | src/oplog/mod.rs:152-164 | scanning any bytes whose frames decode finds exactly the frames' entries, or reports the checksum of what follows |
| OplogReads.ScanFails | src/oplog/mod.rs:152-164 | the first frame that does not decode ends the scan with its error |
| OplogFiles.SlotInserted | src/oplog/mod.rs:338-397 | the header written to the next slot becomes the newest, and the one before stays readable |
| OplogFiles.ClearedHeaders | src/oplog/mod.rs:255-280 | clearing traces leaves the header in both slots and no entries |
| OplogFiles.TracesAreCleared | src/oplog/mod.rs:255-280 | after clearing traces the file does not depend on what it held before |
| OplogFiles.EntryAppended | src/oplog/mod.rs:282-316 | a frame behind the others adds one entry |
| OplogFiles.NewestHeaderOpens | src/oplog/mod.rs:99-140 | opening picks the newest header and its bits, whichever slot holds it |
| OplogFiles.EntriesOpen | src/oplog/mod.rs:150-170 | opening finds exactly the entries since the newest header |
| OplogFiles.HeaderIsRead | src/oplog/mod.rs:88-148 | whatever frames the slots hold: the header of the one that counts, bits that send the next header to the other slot, a first header for an empty file, or an error |
| OplogFiles.DamagedSlot | src/oplog/mod.rs:88-100 | a damaged frame in either slot is reported |
| OplogFiles.EntriesAreRead | src/oplog/mod.rs:150-170 | any bytes behind the slots: the entries are found if and only if all frames decode, what follows is too short for one and the last is whole, and then they are exactly the frames' |
| OplogFiles.OpeningCreates | src/oplog/mod.rs:318-336 | opening an empty file with a first header gives that header, no entries, the new file's bits and the operations that make it; opening that file gives the same again; without a header an empty file is refused |
| OplogFiles.FrontOpens | src/oplog/mod.rs:150-170 | frames in front of anything else: opening fails or finds their entries first |
| OplogFiles.Oplog.AppendEntry | src/oplog/mod.rs:282-316 | the operation and the counters of one logged entry, for any file |
| OplogFiles.Oplog.Flush | src/oplog/mod.rs:255-280 | the operations, the bits and the counters of a flush, with and without clearing traces, for any file |
| OplogFiles.ScanEntries | src/oplog/mod.rs:152-164 | the scanning loop finds what the specification finds |
| OplogFiles.Open | src/oplog/mod.rs:88-171 | header, bits and entries, or the error, as specified; if it succeeds, the bytes behind the slots are frames of exactly the returned entries and a rest too short for one |
| OplogFiles.RunOpens | src/oplog/mod.rs:88-171 | the file after any run of inserts and entries opens to the newest header, the same bits and the entries since |
| OplogFiles.Run | src/oplog/mod.rs:88-336 | the oplog object, opened on an empty file, writes that file, and opening it gives that |
| OplogFiles.OverwrittenFound | src/oplog/mod.rs:150-170 | a frame over the first entry is what opening finds first |
| Storage.BatchStored | src/data/mod.rs:9-20 | a batch written at the byte length puts every block at its start and touches no other |
| Storage.ReplayIsIdempotent | src/core.rs:174-190 | replaying updates over bits that already have them changes nothing |
| Storage.ChainLeads | src/core.rs:174-237 | entries that fit one after another lead to nodes of the writer and to a length whose roots are all known |
| Durability.EntryLogged | src/oplog/mod.rs:282-316 | logging any entry that fits moves the stores to the tree and the bits that the entry makes of theirs |
| Durability.AppendIsDurable | src/core.rs:294-313 | bytes and logged entry together move the stores to the longer log |
| Durability.DataWriteKeeps | src/core.rs:294-298 | bytes alone leave the stores at the old log |
| Durability.ClearIsDurable | src/core.rs:397-399 | a logged clear moves the stores to the cleared bits |
| Durability.BitfieldWriteKeeps | src/core.rs:738-739 | a flushed page under logged entries changes nothing |
| Durability.NodeWriteKeeps | src/core.rs:740-741 | so does a flushed node, whatever entries follow |
| Durability.FlushedIsDurable | src/core.rs:734-745 | stores that hold a tree's nodes, its bits and its header stand for it without any entries |
| CoreState.UpdateContiguousLength | src/core.rs:748-769 | where the hint moves, for set and dropped ranges |
| CoreState.HintAfterSet | src/core.rs:748-769 | after a set range the incremental hint is the first unset index |
| CoreState.HintAfterClear | src/core.rs:405-407 | after a live clear too |
| CoreState.ReplayedHint | src/core.rs:755-758 | after a replayed clear exactly if the range does not end before the hint |
| CoreState.StaleHint | src/core.rs:755-758 | a replayed clear that leaves the hint past an unset bit |
| CoreState.FlushIsSafe | src/core.rs:734-745 | after any number of a flush's writes the stores stand for the same tree and blocks, but between header and truncation |
| CoreState.BatchIsSafe | src/core.rs:294-313 | bytes first, entry second: at every point the log before or after |
| CoreState.ClearIsSafe | src/core.rs:397-446 | the same for the entry and the hole of a clear |
| CoreState.AppendKeepsTrust | src/core.rs:321-322 | appending at the end of the log keeps a trusted tree trusted |
| CoreState.WriterIsTrusted | src/core.rs:276-343 | a writer's tree is a trusted tree |
| CoreState.FlushIsDurable | src/core.rs:734-745 | the flushed stores stand for the tree and the blocks by themselves, for a writer and a replica |
| CoreState.CommitAppends | src/core.rs:321-322 | committing a batch's changeset gives the writer's tree of the longer log |
| CoreState.HoleIsDead | src/core.rs:409-446 | no byte of a held block lies in the hole |
| CoreState.HoleCovers | src/core.rs:409-446 | every byte of a cleared block does |
| Core.Hypercore.Fresh | src/oplog/mod.rs:318-336 | a new core is empty, valid and durable |
| Core.Hypercore.ShouldFlush | src/core.rs:722-732 | when a flush is due and how the counter moves |
| Core.Hypercore.Flush | src/core.rs:734-745 | the journaled writes: changed pages, every unflushed node once, header, truncation, in this order; tree and bits stay |
| Core.Hypercore.AppendBatch | src/core.rs:276-343 | the content grows by the batch, the hint stays exact, tree and header carry the writer's signature of the new length, the stores stay durable, and if the counter of logged bytes was right, a crash at any point of the journaled writes leaves the log before or after |
| Core.Hypercore.SignedWhole | src/core.rs:276-343 | a core with any block has its writer's signature and tree hash of its length in tree and header |
| Core.Hypercore.Get | src/core.rs:359-388 | the block of the plain sequence, or nothing |
| Core.Hypercore.FindHole | src/core.rs:409-440 | in a writer's core and in a replica the hole reaches to the nearest held blocks and is exactly the bytes in between; it is found if and only if it starts inside the tree and its last block is known |
| Core.Hypercore.Clear | src/core.rs:392-454 | the bits of the range are dropped and the hint stays exact; for a writer and a replica it completes if and only if the hole is found, deletes exactly the hole then and nothing otherwise, and the core goes on following; for a writer that is if it is empty, starts inside the log or the last block is not held; it keeps the stores durable if it completes or the counter was right, and is crash safe if the counter was right |
| CoreState.HoleExists | src/core.rs:409-440 | when the hole around cleared blocks starts inside the log |
| CoreState.FindsThis | src/core.rs:409-440 | a clear finds its hole if and only if the nearest held blocks leave one that starts inside the tree and ends in a known block |
| CoreState.WriterFinds | src/core.rs:409-440 | in a writer's tree that is when it starts inside the log or the last block is not held |
| Overwrites.SameSizeReplaces | src/oplog/mod.rs:121-125 | an entry of the size of the first one, logged after a reopen, takes its place |
| Overwrites.SmallerGarbles | src/oplog/mod.rs:121-125 | a smaller one garbles the log behind it |
| Overwrites.SameEntryAgain | src/oplog/mod.rs:121-125 | the same entry again changes nothing |
| Overwrites.ClearOverClears | src/core.rs:397-399 | after a clear in the place of logged clears the stores open to the same tree, with exactly the bits that the remaining entries make of the stored ones |
| Overwrites.CrashAfterClear | src/core.rs:397-399 | a crash right after such a clear is harmless if and only if those are the bits before or after the clear and the blocks are there |
| Overwrites.AppendOverClears | src/core.rs:294-313 | after an append over logged clears the stores open to the longer tree and to nothing else, with exactly the bits that the remaining entries make of the stored ones |
| Overwrites.CrashAfterAppend | src/core.rs:294-313 | a crash right after such an append is harmless if and only if those are the bits after it |
| Reopened.LoggedAppendLost | src/core.rs:392-454 | two appends, a reopen and a clear past the end: the clear fails, its only write garbles the logged append, and the clear alone leads to the length before that append |
| Reopened.ClearedBlockComesBack | src/core.rs:392-454 | a logged clear, a reopen, another clear and a crash: the stores open with the first block marked as held and its bytes gone |
| Hints.StaleFrom | src/core.rs:748-769 | every block that is missing below the hint was dropped by a replayed clear that ended before the hint |
| Hints.ReplayedHintIsRight | src/core.rs:174-237 | the hint after a replay is right if and only if no such block is below the final hint and was not set again |
| Recovery.ReplayUpgrade | src/core.rs:191-234 | the tree moves to the logged length with that length's roots |
| Recovery.ReplayEntries | src/core.rs:174-237 | replay leads to the tree and the bits of the log, and header and tree carry the signature of the length they reach |
| Recovery.Open | src/core.rs:82-255 | opening durable stores, a writer's or a replica's, gives the tree, the signature and the blocks they stand for and stays durable; the hint is right if and only if no replayed clear left a block behind |
| Recovery.TreesAgree | src/core.rs:82-255 | a recovered tree and the live one agree in length, byte length, roots and nodes |
| Runs.Do | src/core.rs:276-454 | one step of a core is one step of the plain sequence and of the flush schedule; it keeps the stores durable if it completes or the counter was right |
| Runs.Run | src/core.rs:276-454 | any run of appends, clears and reopens is the plain sequence, with durable stores, unless a clear fails over logged entries that the core has not counted |
| Schedules.LoggingKeeps | src/core.rs:722-745 | what is logged and counted after an entry follows from the counter and the size of the entry |
| Runs.RunMixed | src/core.rs:276-585 | any run of appends, clears and received proofs of any make keeps the core tracking and the hint exact |
| Runs.RunFromCreation | src/core.rs:276-585 | in particular from creation, for a writer and for a replica |
| ReplicaState.AcceptedKeepsFollowing | src/core.rs:490-498 | an accepted proof that is anchored, or made by the writer, keeps the replica's tree part of the writer's |
| ReplicaState.AcceptedKeepsTrust | src/core.rs:490-498 | any accepted proof keeps the tree trusted and agrees with it on every hash |
| ReplicaState.BlockPut | src/data/mod.rs:22-24 | a block put at its start is stored and no other block is touched |
| ReplicaState.UpgradeIsSigned | src/core.rs:490-552 | the header of an accepted upgrade carries the writer's signature and tree hash, whoever sent it |
| ReplicaState.ChangeFits | src/core.rs:531-563 | the entry of an accepted exact proof leads the logged tree and bits to what commit and bitfield make of them |
| ReplicaState.ProofIsSafe | src/core.rs:502-552 | block first, entry second: after any number of these writes the replica before or after the proof |
| ReplicaState.AppliedIsDurable | src/core.rs:490-585 | the writes of an applied proof are crash safe and leave stores that stand for the replica after it |
| Replication.VerifyAndApplyProof | src/core.rs:490-585 | for any proof and any tracking core: false exactly for another fork, applied exactly if accepted and its block's place is found, the block put at that place, bits and tree after it, nothing changed otherwise, tracking and hint kept; a following core that is sent an anchored proof applies it unless the lookup is out of range; if the place is found it goes on following, its stores stay durable, and if the counter was right every crash leaves the replica before or after |
| Replication.AnswerIsAccepted | src/core.rs:463-488 | an honest core's answer is accepted by the replica that asked for it and leads to that core's roots |
| Replication.CreateProof | src/core.rs:463-488 | a proof from the core's own tree and signature with the block's value; nothing if the block is not held |
| Replication.Answer | src/core.rs:463-488 | a writer or a replica answers if and only if it knows what the answer needs and holds the block, and what it answers is accepted and leads to its own roots |
| Replication.Fetch | src/core.rs:463-595 | missing nodes, request, another core's answer and application: an answer as above, applied exactly if the lookup is in range, with the other's length and the block marked; the replica goes on following, with durable stores, if the block's place is found, and keeps the signature of its length in any case |
| Replication.Get | src/core.rs:359-388 | a replica reads back exactly the writer's blocks it holds |
| ReplicaRuns.Take | src/core.rs:392-585 | one proof, clear or restart leaves a durable replica with the tree, the blocks and the flush schedule of one that forgets nothing |
| ReplicaRuns.RunReplica | src/core.rs:392-585 | so does any run of anchored proofs, accepted or not, clears and restarts |

## Left out

- Storage backends, read instructions and the asynchronous round trips: stores are maps and byte sequences, and a node or byte that is there is read at once.
- Hash functions, signatures and the checksum are not computed: hashes are terms, signatures a set of signed messages, the checksum a parameter.
- Wire-message codecs: straight field lists. In headers any 32 bytes are a key, and hash and signature names are the default ones.
- The compact-encoding primitives follow the published variable-length format, since that library is not part of the repository.
- Integers are unbounded: overflow of 64-bit lengths and offsets is not modelled; encoded integers are below 2^64 and frames below 2^30 bytes. A subtraction that would go below zero is a panic.
- Events, shared cores, the builder, cache sizes, `info`, `has` and `make_read_only` (its double header write is `OplogFiles.ClearedHeaders`).
- Bitfield pages are values that the page map replaces, not arrays written in place; single-bit `set`, `index_of(false)` and `biggest_page_index` are not modelled.
- A core's reads use the one map that `MerkleTree.Lookup` is proved to answer from, not the lookup itself.
- Forks: a core keeps the fork it has; no public operation starts another.
- What a garbled log decodes to behind its known entries depends on the checksum of leftover bytes; opening then fails or finds more entries, and nothing is said of those.
- MerkleTrees.MerkleTree.Commit: changesets that shrink the tree are left out, because the code there writes blank nodes with a malformed hash and no public operation reaches it.
- MerkleTrees.MerkleTree.Lookup: blank nodes and pending truncations are left out for the same reason.
- MerkleTrees.OpenTree: a stored signature that does not parse is left out; the header holds a parsed signature or none.
- Prover.BlockProof: hash and seek requests are left out; the verifier handles them here, the prover answers blocks and upgrades. `seek_untrusted_tree` and `seek_proof` are not modelled.
- Prover.UpgradeProof: upgrades combined with a seek are left out, as above.
- Prover.CreateValuelessProof: hash and seek requests are left out, as above.
- OplogFiles.Oplog.AppendEntry: one entry per append and no partial bits, as all callers do; with more than one entry the code frames them wrongly. A file with a trailing partial entry makes `open` loop, modelled as an error.
- Core.Hypercore.AppendBatch: crash states are not characterised between the header write and the truncation, where old entries are replayed over the new header; with a wrong counter crash safety is decided for an append over logged clears (`CrashAfterAppend`), not over other appends.
- Core.Hypercore.Clear: durability and crash safety are stated one way, because a wrong counter can be harmless (`SameEntryAgain`); the exact condition is `CrashAfterClear`, for a clear in the place of clears; over a logged append the log is garbled. For a replica that has accepted wrong lengths the bytes of the hole are not stated.
- Runs.Run: reopening is stated for at most 8192 blocks, because of what `FlushedBitsComeBack` shows; a clear that fails over uncounted entries is left out, though it does no harm if it repeats the only one.
- ReplicaRuns.RunReplica: proofs with a seek, a bare hash or additional nodes are left out, since they can bring wrong lengths (`Lengths`), and so are blocks that the lookup puts in the wrong place (`Misplaced`) and clears that fail over uncounted entries.
- Lengths.ExactMessageIsExact: its condition speaks of the writer's log; it serves for answers that the writer made, `AnchoredProofIsExact` for all others.
