# Verified models of Forest's core data structures and protocols

Forest is a Filecoin node. This project models the parts of it that the rest of the node stands on, and
proves what they are for:

- the **HAMT**, a content-addressed hash map (`hash_bits`, `bitfield`, `bitfield_codec`, `hamt`, `hamt_*`);
- the **AMT**, a content-addressed sparse vector (`amt`, `amt_*`), and the callbacks of both (`callbacks`);
- the **message chains** of the message pool (`chain_hull`, `msg_chain`,
  `concave_line`, `chain_majorant`);
- the **CBOR link scanner** and the **buffered block store** that flushes with it
  (`cbor_*`, `iteration`, `ipld`, `link_graph`, `buffered`, `block_links`), and the **link walk** over stored blocks (`link_walk`);
- the **tipset processor** of chain sync (`tipset_group`, `tipset_range`, `tipset_trace`,
  `tipset_processor`);
- the **Poisson win count** of leader election (`poisson`);
- the **tipset state cache** shared by concurrent tasks (`compute_once`).

`dafny verify dfyconfig.toml` checks everything.

## How things are modelled

Objects with state (`Hamt`, `Amt`, `Buffered`, `Chains`, `Cursor`, `Walk`, `Poiss`, `TipsetProcessor`) are classes;
tree nodes, which their parent owns alone, are values, and an operation on a node returns the new node.
A CID is modelled by what it names, so equal CIDs mean equal blocks and a block cannot contain its own CID;
in the scanner and the buffered store, where blocks are bytes, the same assumption is a rank that links lead down.
Bytes and words are sequences of bits where the code shifts and masks them. The concurrent cache is a state
machine whose steps interleave freely. Loops of the source are loops with invariants, proved against
functions (`Listing`, `RunMut`, `ScanFrom`, `Mass`) about which the lemmas then speak. The tipset processor carries its
history as a ghost field: what arrived and what its futures answered.

## What the proofs found

- `Hamt::delete` panics on some absent keys: the recursion reaches `unreachable!` when the path crosses a link
  that was not modified since the last flush. The exact condition is in `HamtDelete.RmValue`, and in a form a
  caller can test, "more than three stored keys share the first hash chunk", in `HamtApi.Hamt.DeleteAfterFlush`;
  `HamtApi.DeletePanics` is a history that meets it.
- `Hamt::set` fails with `MaxDepth` if and only if three stored keys agree with the new key on every whole chunk. It has
  by then emptied their bucket, so they are gone, unless the bucket is behind the last chunk (`HamtRefuse.GoneIs`, shown
  by `HamtRefuse.SetLosesThree`).
- `Amt::for_each_while_mut` with a callback that writes and fails leaves the written value in the cache of a link that is
  not marked as modified: reads meet it, and the next flush loses it (`AmtMutate.FailureLoses`, shown by
  `AmtRuns.FlushLosesWrite`).
- A bitfield with leading zero bytes is accepted and written back shorter; more than 32 bytes panic.
- An empty AMT node of links and an empty leaf have one stored form (`AmtCodec.EmptyNodesShareBlock`); no canonical
  root depends on the difference (`AmtApi.RootBlockNamesContents`).
- The scanner takes a last string that announces more bytes than there are for complete (`CborOverrun.OverrunIff`,
  `CborOverrun.BareHeaderOverruns`).
- A string of 2^63 bytes or more moves the scanner back, so that it accepts what encodes nothing
  (`CborLegs.SeeksBackAccepted`) and can go on for ever (`CborLegs.ScansForEver`); a container of too many members wraps
  its counter round (`CborLegs.CountWraps`). `CborLegs.EndsIff` says exactly how a scan ends, `CborLegs.AcceptsIff` and
  `CborLegs.PanicsIff` when it accepts and panics, and `CborStops` what in the data turns it off course.
- The scanner panics on an empty CID string (`CborStops.PanicIff`, `CborStops.EmptyLinkAlone`), and with it a flush.
- A flush of a root outside DAG-CBOR writes nothing and still drops the cache.
- The processor is left with no next group, though one was kept, if and only if the search for the present range is
  refused (`TipsetSync.FinishFinding`, shown by `TipsetSync.ForgetsNext`). The key of a range's head is never put on record, so
  the head is scheduled a second time if and only if it arrives again while its range is active
  (`TipsetSync.TraceInvariantHolds`, shown by `TipsetSync.SchedulesHeadTwice`).
- The comment on `tipset_state` promises that no state is computed twice: true of successful computations
  (`ComputeOnce.NeverComputedTwice`); a failed one is computed again (`ComputeOnce.ComputesAgainAfterFailure`).

## Model

| member | source | states |
|---|---|---|
| `HashBitReader.Next` | ipld/hamt/src/hash_bits.rs:34-42 | a read of `i` bits returns the number below 2^i whose binary digits are the next `i` bits of the key, first bit highest, or the error (width over 8, key used up) or panic (width 0 at the very end) the code gives, for every width and position |
| `HashBitReader.NextBits` | ipld/hamt/src/hash_bits.rs:44-74 | the masks and shifts across byte borders spell exactly the next `i` bits of the key |
| `HashBitReader.ChunkSpells` | ipld/hamt/src/hash_bits.rs:34-74 | the number that a chunk of the key stands for has the bits of the key for its binary digits |
| `HashBitReader.ReadRun` | ipld/hamt/src/hash_bits.rs:20-74 | any run of reads, resumed anywhere, glues to the number whose binary digits are the key bits it covered: no bit is skipped or read twice |
| `Bitfields.Bitfield.SetBitsLeq` | ipld/hamt/src/bitfield.rs:103-134 | the word-by-word masks set every bit at or below the given one and leave the others |
| `Bitfields.IndexForBitPos` | ipld/hamt/src/node.rs:460-464 | the position of a slot is the number of set bits below it |
| `Bitfields.Select` | ipld/hamt/src/node.rs:460-464 | every position is the position of a set bit: rank is a bijection onto the pointers |
| `Bitfields.InsertKeepsRank` | ipld/hamt/src/node.rs:453-458 | inserting at the rank of a fresh bit puts the new pointer under that bit and moves no other |
| `Bitfields.RemoveKeepsRank` | ipld/hamt/src/node.rs:448-451 | removing at the rank of a set bit takes that pointer and moves no other |
| `BitfieldCodec.Serialize` | ipld/hamt/src/bitfield.rs:15-35 | the loop writes the big-endian bytes without their leading zeros |
| `BitfieldCodec.OctetBits` | ipld/hamt/src/bitfield.rs:20-25 | bit `b` of the byte `k` from the last is bit `8k + b` of the field |
| `BitfieldCodec.Deserialize` | ipld/hamt/src/bitfield.rs:37-57 | at most 32 bytes read back as if padded in front; more than 32 panic |
| `BitfieldCodec.SerializedReadsBack` | ipld/hamt/src/bitfield.rs:15-57 | every bitfield reads back from what was written of it |
| `BitfieldCodec.ReadIsWrittenTrimmed` | ipld/hamt/src/bitfield.rs:15-57 | what reads back is written again unchanged if and only if it had no leading zero byte |
| `HamtModel.Locate` | ipld/hamt/src/node.rs:188-232 | in a canonical node an entry is present if and only if it is in the slot its hash chunk selects |
| `HamtModel.KeysAreUnique` | ipld/hamt/src/node.rs:236-355 | a canonical tree holds at most one value for a key |
| `HamtModel.CanonicalIsUnique` | ipld/hamt/src/node.rs:236-426 | two canonical trees with the same entries are the same tree: shape is a function of contents |
| `HamtSet.ModifyValue` | ipld/hamt/src/node.rs:236-355 | set on a node keeps it canonical, changes the entries to exactly the update (or nothing, if absent-only and present), reports the previous value and whether it changed, and fails with MaxDepth only when three stored keys agree with the new one on every whole chunk; what is then gone from reads, and what from the root |
| `HamtRefuse.GoneIs` | ipld/hamt/src/node.rs:313-343 | a refused set drops all the keys that agree with the new one, unless more than three keys agree with it on every chunk but the last, and then none |
| `HamtRefuse.SetLosesThree` | ipld/hamt/src/node.rs:313-343 | such a loss, from an empty map: three keys are set, setting a fourth that agrees with them fails and leaves none |
| `HamtSet.ModifyBucket` | ipld/hamt/src/node.rs:292-353 | the bucket arm: overwrite, insert in key order, or split, with the same promise |
| `HamtSet.SplitBucket` | ipld/hamt/src/node.rs:313-343 | a full bucket becomes a canonical sub-node holding its entries and the new one, none lost or doubled; MaxDepth only on a four-way collision |
| `HamtSet.Rehome` | ipld/hamt/src/node.rs:326-338 | the loop that moves the evicted entries adds exactly them |
| `HamtSet.LoadChild` | ipld/hamt/src/node.rs:261-267 | a link is followed through its cache or the store; a missing block is reported with its CID |
| `HamtDelete.RmValue` | ipld/hamt/src/node.rs:358-426 | delete on a node keeps it canonical, removes exactly the key, returns its entry, and panics if and only if the key is absent and its path crosses an unmodified link |
| `HamtDelete.Collapse` | ipld/hamt/src/pointer.rs:121-176 | the collapse test counts the entries of small children, and yields them sorted exactly when at most three are left |
| `HamtDelete.CleanPointer` | ipld/hamt/src/pointer.rs:121-179 | cleaning a modified child restores canonical form without changing its entries; on any other pointer it panics |
| `HamtDelete.StoreChild` | ipld/hamt/src/node.rs:377-426 | writing a child back, or removing its emptied slot, keeps the node canonical and every other slot as it was |
| `HamtDelete.CleanCrosses` | ipld/hamt/src/node.rs:380-397 | in a map just loaded or flushed, the panicking paths are exactly those whose first chunk more than three stored keys share |
| `HamtTree.GetValue` | ipld/hamt/src/node.rs:188-232 | lookup finds the value if and only if the entry is present, changes only caches, and fails only for a block missing from the store |
| `HamtTree.ForEachNode` | ipld/hamt/src/node.rs:136-171 | iteration calls on the listing of the tree, in order, up to and including the first call that fails |
| `HamtTree.ListingIsComplete` | ipld/hamt/src/node.rs:136-171 | the listing holds every entry once |
| `HamtOrder.ListedInOrder` | ipld/hamt/src/node.rs:136-171 | of two entries the one in the lower slot comes first, at the highest node where their slots differ; in one bucket the one with the lesser key |
| `HamtTree.FlushNode` | ipld/hamt/src/node.rs:428-446 | flush keeps the entries and the tree, leaves no modified child, and stores every block reachable from it |
| `HamtTree.NoFourWayCollision` | ipld/hamt/src/node.rs:236-355 | no canonical tree holds four keys that agree on every chunk |
| `HamtTree.CidDependsOnContentsOnly` | ipld/hamt/src/hamt.rs:265-268 | two canonical maps have the same contents if and only if they have the same root CID |
| `HamtApi.Hamt.Set` | ipld/hamt/src/hamt.rs:136-143 | the map gains the pair, the previous value is returned, and MaxDepth is reported exactly for a crowded key; which entries are then gone |
| `HamtApi.Hamt.SetIfAbsent` | ipld/hamt/src/hamt.rs:170-177 | true and an update if the key was absent, false and no change if present |
| `HamtApi.Hamt.Get` | ipld/hamt/src/hamt.rs:198-208 | the value of the key in the map, or none |
| `HamtApi.Hamt.Delete` | ipld/hamt/src/hamt.rs:256-262 | the map loses the key and its pair is returned; the exact condition of the panic |
| `HamtApi.Hamt.DeleteAfterFlush` | ipld/hamt/src/hamt.rs:256-268 | deleting an absent key after a flush panics if and only if more than three stored keys share its first chunk |
| `HamtApi.Hamt.Flush` | ipld/hamt/src/hamt.rs:265-268 | flush changes no contents and returns the CID of the canonical root, stored and loadable |
| `HamtApi.Hamt.ForEach` | ipld/hamt/src/hamt.rs:298-304 | one call for each pair of the map, in the order of the slots on the way down and of the keys in a bucket, up to the first that fails, whose error is returned |
| `HamtApi.Load` | ipld/hamt/src/hamt.rs:83-99 | a stored root gives back a map with its contents; a missing one is reported |
| `HamtApi.Step` | ipld/hamt/src/hamt.rs:136-268 | one operation of a history does to the map, and answers, what it would on a plain map; it fails if and only if it inserts beside three inseparable keys or deletes an absent key across an unmodified link |
| `HamtApi.RunOps` | ipld/hamt/src/hamt.rs:136-268 | a history answers every operation as a plain map does, up to the first that fails; that one inserts beside three inseparable keys or deletes an absent key |
| `HamtApi.RunAndFlush` | ipld/hamt/src/hamt.rs:68-268 | the same from an empty map, ending in a stored root that holds the map the history spells |
| `HamtApi.DeletePanics` | ipld/hamt/src/hamt.rs:256-268 | the panic of delete, from an empty map: four keys with one first chunk are set and flushed, a fifth with that chunk is deleted |
| `HamtApi.HistoryIndependence` | ipld/hamt/src/hamt.rs:265-268 | two histories flush to the same root CID if and only if they end in the same map |
| `AmtIndex.NodesForHeightExact` | ipld/amt/src/lib.rs:28-34 | below 64 bits the capacity is the exact power of the width |
| `AmtIndex.RangeCheckExact` | ipld/amt/src/lib.rs:24-34 | saturation never changes the outcome of a range check on a legal index |
| `AmtIndex.PathIsValid` | ipld/amt/src/node.rs:237-273 | the quotients and remainders taken on the way down are a path that spells the index |
| `AmtIndex.IndexInRange` | ipld/amt/src/node.rs:237-273 | no other path does: a path is the one taken for the index it spells |
| `AmtCodec.PackSlots` | ipld/amt/src/node.rs:82-114 | serialising sets bit `i % 8` of byte `i / 8` exactly if slot `i` is occupied, and packs the occupants in order |
| `AmtCodec.SomesInOrder` | ipld/amt/src/node.rs:82-114 | the occupant of a slot is packed behind exactly those of the slots before it |
| `AmtCodec.DealSlots` | ipld/amt/src/node.rs:121-172 | expanding puts the stored items back under their bits, or reports the exact mismatch |
| `AmtCodec.Expand` | ipld/amt/src/node.rs:121-172 | a block that encodes a node expands to that node; other blocks give the error the code gives |
| `AmtCodec.EncodingUnique` | ipld/amt/src/node.rs:82-114 | a node has one encoding |
| `AmtCodec.DecodingUnique` | ipld/amt/src/node.rs:121-172 | a block encodes one node of a given width, save that an empty node of links reads as an empty leaf |
| `AmtCodec.EmptyNodesShareBlock` | ipld/amt/src/node.rs:82-114 | the exception is real: an empty leaf and an empty node of links have one block |
| `AmtModel.CanonicalIsUnique` | ipld/amt/src/node.rs:276-416 | two canonical nodes with the same values at the same paths are equal |
| `AmtNode.Get` | ipld/amt/src/node.rs:237-273 | the value at the index, or none; only caches change; only a missing block fails |
| `AmtNode.Set` | ipld/amt/src/node.rs:276-343 | exactly the index changes, the previous value comes back, and the node stays canonical |
| `AmtNode.Delete` | ipld/amt/src/node.rs:346-416 | exactly the index is emptied, emptied children are dropped, and the node stays canonical |
| `AmtWalk.Flush` | ipld/amt/src/node.rs:188-210 | flush keeps the tree, leaves no modified link, and stores every block reachable from it |
| `AmtWalk.ListingIsSorted` | ipld/amt/src/node.rs:418-471 | the entries are listed by strictly increasing index |
| `AmtWalk.ListingIsComplete` | ipld/amt/src/node.rs:418-471 | an entry is listed if and only if it is at its index |
| `AmtWalk.ForEachWhile` | ipld/amt/src/node.rs:418-471 | the calls made, and the last reply, are those of calling on the listing until the callback declines or fails |
| `Callbacks.CallsMean` | ipld/amt/src/node.rs:418-471 | such a run covers everything, or stops right after the first call that declines or fails |
| `AmtMutate.ForEachWhileMut` | ipld/amt/src/node.rs:473-549 | the mutating walk makes the same calls, reads then meet exactly what the callback wrote, a change is reported if and only if it wrote, and the tree stays canonical unless the callback failed |
| `AmtMutate.RunMutCalls` | ipld/amt/src/node.rs:473-549 | the callback meets the entries in order, goes on after every call but a last one that declines or fails, and meets none after that; a change is reported if and only if one of those calls wrote |
| `AmtMutate.RunMutAfter` | ipld/amt/src/node.rs:473-549 | an entry that was met and written has what was written; every other entry is as it was |
| `AmtMutate.FailureLoses` | ipld/amt/src/node.rs:503-537 | when the callback failed in a slot behind an unmodified link, the root that a flush would store has all that was written but for that slot, which is as it was |
| `AmtRuns.FlushLosesWrite` | ipld/amt/src/node.rs:503-537 | such a loss, from an empty vector: reads meet the written value and the root to be stored has the old one |
| `AmtTree.ContentsDetermineTree` | ipld/amt/src/amt.rs:124-235 | height and tree are a function of the contents and the width |
| `AmtTree.GrowTo` | ipld/amt/src/amt.rs:129-150 | the root is raised exactly until the index fits, without changing a value |
| `AmtTree.CollapseRoot` | ipld/amt/src/amt.rs:203-232 | the root is lowered while only the first child is in use, without changing a value |
| `AmtApi.SetRoot` | ipld/amt/src/amt.rs:124-162 | set on the root keeps it canonical and changes the contents by exactly the index |
| `AmtApi.DeleteRoot` | ipld/amt/src/amt.rs:175-235 | delete on the root keeps it canonical, of minimal height, and removes exactly the index |
| `AmtApi.Amt.Get` | ipld/amt/src/amt.rs:109-121 | the value at the index; indices over the maximum are refused |
| `AmtApi.Amt.Set` | ipld/amt/src/amt.rs:124-162 | the vector takes the value, the count stays the number of values, indices over the maximum are refused |
| `AmtApi.Amt.Delete` | ipld/amt/src/amt.rs:175-235 | the vector loses the index, its value is returned, the count stays right |
| `AmtApi.Amt.Flush` | ipld/amt/src/amt.rs:265-268 | flush is never refused, changes no contents, and returns the CID of the canonical root |
| `AmtApi.Amt.ForEachWhile` | ipld/amt/src/amt.rs:306-314 | entries in increasing order up to the first call that declines or fails; the error of a failing call is returned |
| `AmtApi.Amt.ForEachWhileMut` | ipld/amt/src/amt.rs:331-344 | the vector then has what the callback wrote in the entries it met and is else as it was, height and count stay; after a failing call, whose error is returned, reads meet the same, and which slot the root does not have |
| `AmtApi.Load` | ipld/amt/src/amt.rs:72-84 | a stored canonical root gives back its vector; missing roots are reported |
| `AmtRuns.Step` | ipld/amt/src/amt.rs:109-344 | one operation of a history, walks included, does to the vector and answers what it would on a plain vector, refusing indices over the maximum; it fails if and only if it is a mutating walk whose callback fails |
| `AmtRuns.MutatedIs` | ipld/amt/src/amt.rs:331-344 | the plain vector that a mutating walk is held against has what the callback wrote in the entries it met, and is else as it was |
| `AmtRuns.RunOps` | ipld/amt/src/amt.rs:109-344 | a history answers every operation as a plain vector does, up to a mutating walk that fails |
| `AmtRuns.RunAndFlush` | ipld/amt/src/amt.rs:60-344 | the same from an empty vector, ending in a stored root that names the vector the history spells |
| `AmtApi.RootCidNamesContents` | ipld/amt/src/amt.rs:265-268 | two flushed vectors of one width are equal if and only if their root CIDs are |
| `AmtApi.RootBlockNamesContents` | ipld/amt/src/amt.rs:265-268 | and if and only if the root blocks themselves are equal, so the CID may be any injective function of the block |
| `ChainHull.FirstChainIsBest` | blockchain/message_pool/src/msg_chain.rs:440-504 | the first chain performs at least as well as every prefix of the messages, strictly better than every longer one |
| `ChainHull.HullIsUnique` | blockchain/message_pool/src/msg_chain.rs:440-504 | the partition into chains is a function of the messages: no other has decreasing performance and no chain beaten by its own prefix |
| `ChainMajorant.ConcaveMajorant` | blockchain/message_pool/src/msg_chain.rs:440-504 | the line through the ends of the chains, reward over gas, is concave and on or above the point of every prefix of the messages |
| `ChainMajorant.LeastConcaveMajorant` | blockchain/message_pool/src/msg_chain.rs:440-504 | every concave function on or above those points is on or above the line, everywhere |
| `ChainHull.MergeKeepsPrefixBelow` | blockchain/message_pool/src/msg_chain.rs:469-496 | merging a chain into one it does not fall below creates no prefix that beats the whole |
| `ChainHull.AppendKeepsPrefixBelow` | blockchain/message_pool/src/msg_chain.rs:441-462 | nor does appending a message that does not lower the performance |
| `ChainHull.TotalsConserved` | blockchain/message_pool/src/msg_chain.rs:469-496 | the chains together hold the gas and reward of the messages |
| `MsgChain.Select` | blockchain/message_pool/src/msg_chain.rs:352-418 | the loop keeps exactly the longest run past the stale messages that passes the nonce, gas, block and balance checks |
| `MsgChain.PaysLargerPremium` | blockchain/message_pool/src/msgpool/utils.rs:24-30 | each message is paid for all its gas at the larger of its premium and what its fee cap leaves above the base fee |
| `MsgChain.SelectionIsUnique` | blockchain/message_pool/src/msg_chain.rs:352-418 | the pending messages determine the run that is kept |
| `MsgChain.SelectedRunIsSound` | blockchain/message_pool/src/msg_chain.rs:352-418 | the run has consecutive nonces from the actor, fits the block, and each message is covered by what the earlier ones left of the balance |
| `MsgChain.Chains.PushWith` | blockchain/message_pool/src/msg_chain.rs:45-48 | a node gets the next key of the counter, which no node has and which moves on; all other nodes stay |
| `MsgChain.Chains.Chunk` | blockchain/message_pool/src/msg_chain.rs:420-464 | the first cut holds all messages in order in chains no prefix of which beats the whole |
| `MsgChain.Chains.MergePass` | blockchain/message_pool/src/msg_chain.rs:467-501 | one pass moves no message, keeps that property, and reports no merge only if performance strictly decreases |
| `MsgChain.Chains.DropInvalid` | blockchain/message_pool/src/msg_chain.rs:223-235 | exactly the absorbed nodes leave the list and the slot map |
| `MsgChain.Chains.MergeAll` | blockchain/message_pool/src/msg_chain.rs:466-504 | the passes end, with strictly decreasing performance and all messages in place |
| `MsgChain.Chains.LinkNext` | blockchain/message_pool/src/msg_chain.rs:506-512 | every chain points at its successor |
| `MsgChain.Chains.LinkPrev` | blockchain/message_pool/src/msg_chain.rs:514-520 | every chain points at its predecessor |
| `MsgChain.Chains.Invalidate` | blockchain/message_pool/src/msg_chain.rs:204-220 | exactly the chain and those after it are marked invalid, emptied and unlinked, and keep their totals and predecessors; no other chain changes |
| `MsgChain.LinkedIsPath` | blockchain/message_pool/src/msg_chain.rs:204-220 | in a list built for an actor, those are the chains from the given one to the end |
| `MsgChain.Chains.CreateMessageChains` | blockchain/message_pool/src/msg_chain.rs:337-526 | the new keys name exactly the hull of the selected run, doubly linked, with right totals; nodes of other actors are untouched |
| `CborHeader.Cursor.ReadHeader` | ipld/blockstore/src/buffered.rs:57-96 | the reader decodes a header, or gives the error the code gives |
| `CborHeader.HeaderBytes` | ipld/blockstore/src/buffered.rs:57-96 | what is read by the bytes: major type and width in the first, the argument in the big-endian bytes behind it, refused when a smaller width holds it, when the width is not one of CBOR, or when bytes are missing |
| `CborHeader.HeaderDecodes` | ipld/blockstore/src/buffered.rs:57-96 | every shortest header is read back |
| `CborHeader.HeaderIsCanonical` | ipld/blockstore/src/buffered.rs:57-96 | nothing but a shortest header is accepted |
| `CborRounds.ScanForLinks` | ipld/blockstore/src/buffered.rs:102-151 | after any number of rounds the loop is where the rounds lead: the cursor, moved back by lengths of 2^63 and more, the counter, one machine word that wraps round or panics, and the links so far |
| `CborRounds.ScannedIsEnd` | ipld/blockstore/src/buffered.rs:102-151 | a scan that has not ended after one round more than there are positions and counts never ends; otherwise it ends in one state; and every link it ever reports is known by then |
| `CborLegs.EndsIff` | ipld/blockstore/src/buffered.rs:102-151 | a scan ends if and only if there is a journey of forward scans, each from where a length moved the cursor back or the counter wrapped, and ends as the last of them does, with the links of all |
| `CborLegs.AcceptsIff` | ipld/blockstore/src/buffered.rs:102-151 | the blocks that the scanner accepts are those whose journey ends, inside the data or past them |
| `CborLegs.PanicsIff` | ipld/blockstore/src/buffered.rs:102-151 | it panics if and only if the journey comes to an empty CID string, or to a count that a build with checked arithmetic refuses |
| `CborLegs.ForwardEnds` | ipld/blockstore/src/buffered.rs:102-151 | a block without such a length or count ends as the forward scan says |
| `CborLegs.SeeksBackAccepted` | ipld/blockstore/src/buffered.rs:102-151 | the header of a string of 2^64-9 bytes alone is accepted |
| `CborLegs.ScansForEver` | ipld/blockstore/src/buffered.rs:102-151 | a block of ten bytes is scanned for ever |
| `CborLegs.CountWraps` | ipld/blockstore/src/buffered.rs:102-151 | the header of a map of 2^63 pairs alone is accepted, or panics where arithmetic is checked |
| `CborStops.SeekBackIff` | ipld/blockstore/src/buffered.rs:102-151 | a forward scan is moved back if and only if heads of well-formed items are followed, while items are pending, by a string of 2^63 bytes or more |
| `CborStops.CountOverflowIff` | ipld/blockstore/src/buffered.rs:102-151 | its counter leaves the machine word if and only if such heads are followed by a container too large for it |
| `CborStops.PanicIff` | ipld/blockstore/src/buffered.rs:119-131 | it panics if and only if such heads are followed by tag 42 and an empty byte string |
| `CborStops.EmptyLinkAlone` | ipld/blockstore/src/buffered.rs:119-131 | those three bytes alone panic |
| `CborScan.ReadLink` | ipld/blockstore/src/buffered.rs:119-131 | the byte string after tag 42 is a link, or the exact error or panic |
| `CborItems.ScanReadsItems` | ipld/blockstore/src/buffered.rs:102-151 | the forward scan reads every well-formed item to its last byte and reports its links in order |
| `CborItems.ScanAcceptsOnlyItems` | ipld/blockstore/src/buffered.rs:102-151 | a forward scan that ends inside its data has read exactly the encoding of well-formed items |
| `CborItems.ScanFindsLinks` | ipld/blockstore/src/buffered.rs:98-151 | scanning a written IPLD value reports its links, in order, and stops where it ends, for every CID format that reads back the links of the value |
| `CborItems.ScanFindsAllLinks` | ipld/blockstore/src/buffered.rs:98-151 | for a concrete CID format that holds of every value |
| `CborOverrun.DoneIff` | ipld/blockstore/src/buffered.rs:102-151 | a forward scan ends inside its data if and only if the data begins with the encoding of well-formed items |
| `CborOverrun.OverrunIff` | ipld/blockstore/src/buffered.rs:102-151 | a forward scan runs past its data, and is still accepted, if and only if the data is the encoding of well-formed items less the end of the string they end with |
| `CborOverrun.BareHeaderOverruns` | ipld/blockstore/src/buffered.rs:102-151 | such data exists: the one-byte header of a string |
| `BufferedStore.CopyRec` | ipld/blockstore/src/buffered.rs:154-190 | the buffer holds exactly the cached blocks reachable from the root, each after the cached blocks it links to; it fails, panics or never returns if and only if the root is not cached or a reachable block does so when scanned |
| `BufferedStore.AllUnderRoot` | ipld/blockstore/src/buffered.rs:154-190 | everything under the root is in the buffer |
| `BufferedStore.EveryPrefixIsClosed` | node/db/src/lib.rs:48-56 | stopping after any number of the writes leaves a store without dangling links, if the links of the blocks under the root were cached or stored |
| `BufferedStore.ReadsUnderRootKept` | ipld/blockstore/src/buffered.rs:38-47 | after the writes the base alone answers every read below the root as the buffer did |
| `BufferedStore.Buffered.Flush` | ipld/blockstore/src/buffered.rs:38-47 | success clears the cache and adds exactly the reachable cached blocks; a failure, a panic or a scan without end keeps the cache and every read, and has its cause in a block under the root; a root outside DAG-CBOR writes nothing and drops the cache |
| `BufferedStore.Buffered.GetBytes` | ipld/blockstore/src/buffered.rs:196-202 | the cache in front of the base |
| `BlockLinks.WrittenBlock` | ipld/blockstore/src/buffered.rs:172-185 | a block that holds an IPLD value is read to its end, and the links followed are the DAG-CBOR links of the value |
| `BlockLinks.ForwardBlock` | ipld/blockstore/src/buffered.rs:172-185 | of a block that is scanned forward, the links followed are the DAG-CBOR ones of that scan; it is refused, or panics, if and only if that scan does |
| `BlockLinks.FateIff` | ipld/blockstore/src/buffered.rs:102-151 | any block is read, refused, panicked on or scanned for ever if and only if its journey ends so or it has none |
| `BlockLinks.KidsOfRoute` | ipld/blockstore/src/buffered.rs:172-185 | the links followed are the DAG-CBOR ones of the journey |
| `BlockLinks.KidsAreReported` | ipld/blockstore/src/buffered.rs:172-185 | of any block, scanned for ever or not, they are the DAG-CBOR links that some round of the loop reports |
| `BlockLinks.FlushTakesLinked` | ipld/blockstore/src/buffered.rs:154-190 | a flush that succeeds has moved to the base every cached DAG-CBOR block that a cached value under the root links to |
| `LinkWalk.Walk.RecurseLinks` | ipld/src/util.rs:49-71 | ends on every store, cyclic or not; walks exactly what paths of unwalked DAG-CBOR links reach, loads each of those once, and fails if and only if one of them is missing |
| `LinkWalk.Walk.TraverseLinks` | ipld/src/util.rs:14-46 | the same for the links of one value |
| `LinkWalk.WalkedExactly` | ipld/src/util.rs:14-71 | a finished walk holds what was walked before and the ends of unwalked paths, nothing else |
| `TipsetGroups.TryAddTipset` | blockchain/chain_sync/src/tipset_syncer.rs:175-187 | a tipset joins if and only if its epoch and its parents are those of the group and it is new |
| `TipsetGroups.TakeHeaviest` | blockchain/chain_sync/src/tipset_syncer.rs:189-196 | the last of the heaviest leaves; the rest stay, distinct |
| `TipsetGroups.Merge` | blockchain/chain_sync/src/tipset_syncer.rs:207-211 | the union of the two groups |
| `TipsetGroups.GroupArrivals` | blockchain/chain_sync/src/tipset_syncer.rs:357-380 | one group for each epoch and parents that arrived, holding exactly what arrived for them |
| `TipsetRange.AddTipset` | blockchain/chain_sync/src/tipset_syncer.rs:676-712 | a tipset is scheduled if and only if it is not scheduled yet and matches the range; what is neither is refused, for its epoch first and then for its parents |
| `TipsetRange.AddAll` | blockchain/chain_sync/src/tipset_syncer.rs:308-310 | adding the tipsets of a matching group never fails, and schedules exactly those that were missing |
| `TipsetRange.FindRange` | blockchain/chain_sync/src/tipset_syncer.rs:274-313 | refused if and only if the head of the chain is the last of the heaviest tipsets of the group or past its epoch, with the error of each case; otherwise that tipset heads the range and the others are scheduled with it |
| `TipsetRange.UpdateNext` | blockchain/chain_sync/src/tipset_syncer.rs:422-443 | the next group keeps the largest weight of all that arrived outside the range |
| `TipsetSync.ReceiveAll` | blockchain/chain_sync/src/tipset_syncer.rs:357-494 | from idle the heaviest group that arrived begins a range; otherwise what arrived for the range joins it, and the next group stays as heavy as the heaviest of all that came for other ranges |
| `TipsetSync.FinishFinding` | blockchain/chain_sync/src/tipset_syncer.rs:506-547 | a refused search returns to idle, and only that; a found range takes over everything gathered for it and keeps the next group |
| `TipsetSync.FinishSyncing` | blockchain/chain_sync/src/tipset_syncer.rs:548-589 | whatever the outcome, the next range begins with the heaviest of what came meanwhile; idle if and only if nothing did |
| `TipsetSync.Drive` | blockchain/chain_sync/src/tipset_syncer.rs:498-592 | the futures that complete are driven on in turn, each to the event its answer brings about, and four of them always lead to idle |
| `TipsetSync.TipsetProcessor.Poll` | blockchain/chain_sync/src/tipset_syncer.rs:342-593 | a poll adds to the history what arrived and then exactly the events its completed futures bring about, in turn, and leaves the state that the history calls for; it fails, changing nothing, if and only if the stream has closed |
| `TipsetTrace.ModeIsHistory` | blockchain/chain_sync/src/tipset_syncer.rs:342-593 | what the history calls for is read off it: the group of the last range begun, and all that came since for it and for others |
| `TipsetSync.TraceInvariantHolds` | blockchain/chain_sync/src/tipset_syncer.rs:422-589 | a next group is kept if and only if something came for another range since the range began, and holds one of the heaviest of that; a range being synced has for its head the last of the heaviest it began with, and schedules beside it exactly the others and all that came for it since |
| `TipsetSync.Run` | blockchain/chain_sync/src/tipset_syncer.rs:342-593 | every sequence of polls ends in that invariant, over the history of what arrived, in order, and of the events that the answers in each poll bring about |
| `TipsetSync.ForgetsNext` | blockchain/chain_sync/src/tipset_syncer.rs:532-545 | a refused search loses the next group: any two tipsets of different ranges show it |
| `TipsetSync.SchedulesHeadTwice` | blockchain/chain_sync/src/tipset_syncer.rs:625-712 | the head of a range is scheduled once more when it arrives again, for any head |
| `Poisson.Poiss.Next` | blockchain/blocks/src/election_proof.rs:109-122 | the state follows the recurrence of mass and tail |
| `Poisson.ComputeWinCount` | blockchain/blocks/src/election_proof.rs:139-166 | the loop returns the number of thresholds the draw stays below, in turn, up to the cap |
| `Poisson.WinsIsLeast` | blockchain/blocks/src/election_proof.rs:158-165 | which is the least number whose tail the draw reaches, or fifteen |
| `Poisson.WinsMonotone` | blockchain/blocks/src/election_proof.rs:158-165 | a smaller draw or higher thresholds never lose a win |
| `Poisson.MassIsPoisson` | blockchain/blocks/src/election_proof.rs:109-111 | the exact masses are those of the Poisson distribution: times the factorial, the start times the power of the rate |
| `Poisson.TailIsComplement` | blockchain/blocks/src/election_proof.rs:118-121 | the exact tail is what the masses so far leave of one |
| `Poisson.MassIsAccurate` | blockchain/blocks/src/election_proof.rs:109-116 | every computed mass is below the exact one by at most 64 units in the last place, for every index |
| `Poisson.TailIsAccurate` | blockchain/blocks/src/election_proof.rs:109-122 | every computed tail is above the exact one by at most 64 units for each step |
| `Poisson.WinsAreAccurate` | blockchain/blocks/src/election_proof.rs:139-166 | the number of wins is that of the exact distribution up to 960 units of 2^-256 in the draw |
| `Poisson.LambdaIsShare` | blockchain/blocks/src/election_proof.rs:78-82 | the rate is five times the share of the power, rounded down at the 256th binary place |
| `Poisson.LambdaBounded` | blockchain/blocks/src/election_proof.rs:78-82 | a miner with at most the total power has a rate of at most five |
| `ComputeOnce.StepKeepsInv` | blockchain/state_manager/src/lib.rs:346-406 | every step of every task keeps locks, entries and results consistent |
| `ComputeOnce.NeverComputedTwice` | blockchain/state_manager/src/lib.rs:343-406 | in every interleaving a state is computed by one task at a time, and by none once a computation of it succeeded |
| `ComputeOnce.FilledOnce` | blockchain/state_manager/src/lib.rs:343-406 | no two steps of a run compute the state of one tipset with success |
| `ComputeOnce.Outcomes` | blockchain/state_manager/src/lib.rs:374-406 | a call fails if and only if its own computation failed, and succeeds if and only if it found a result or computed one |
| `ComputeOnce.ReturnsCached` | blockchain/state_manager/src/lib.rs:374-406 | a call that has returned and did not fail has the result that is in the cache |
| `ComputeOnce.AnyOutcome` | blockchain/state_manager/src/lib.rs:380-406 | a computation can succeed with any result or fail, and every call can be dropped |
| `ComputeOnce.ComputesAgainAfterFailure` | blockchain/state_manager/src/lib.rs:343-406 | that is all that holds: after a failure a second task computes the same key again |
| `ComputeOnce.CallersAgree` | blockchain/state_manager/src/lib.rs:374-406 | every caller that gets a result for a key gets that of the one step that computed it |
| `ComputeOnce.ValuesArePermanent` | blockchain/state_manager/src/lib.rs:374-406 | a cached result never changes; failures and dropped calls leave the entry empty for a later task |
| `ComputeOnce.NoDeadlock` | blockchain/state_manager/src/lib.rs:363-374 | while a call is unfinished some task can go on |

## Left out

- HamtApi.Hamt.Set: says nothing of the tree after a missing block.
- HamtApi.Hamt.Delete: says nothing of the tree after a panic or a missing block.
- AmtApi.Amt.Set: says nothing of the tree after a missing block.
- HamtSet.ModifyValue: nodes are values, so update in place and the interior of `OnceCell` are seen only through their effect; aliasing does not arise because nodes are owned.
- HamtDelete.RmValue: the feature that ignores dead links is not modelled, nor the branch for compatibility with other implementations.
- AmtApi.Amt.ForEachWhileMut: the variant behind the feature `go-interop`, which walks first and sets the changed values afterwards, is not modelled.
- AmtApi.Amt.NewWithBitWidth: widths of 64 and over, for which the shift overflows, are excluded.
- MsgChain.Chains.CreateMessageChains: performance is the exact ratio, not its rounding to a double; gas sums are unbounded integers; the minimum gas of the price list is a positive parameter; the fields for effective performance are not modelled.
- CborItems.ScanFindsLinks: floating point values are seen as their header and argument only. CIDs have one version and a hash of 32 bytes, and multibase, multihash and version are left to the format.
- CborRounds.ScanForLinks: `usize` has 64 bits.
- BufferedStore.CopyRec: the callback runs during the scan in the source and after it here; a scan without end is cut off once it is known to have none; of several blocks that do not scan, it says that one decides the outcome, not which.
- TipsetSync.TipsetProcessor.Poll: the answers of the futures that complete in a poll are given as a list; groups and the range syncer are values; a stream that yields tipsets and then closes within one poll is seen as closed, as in the source, which drops those tipsets.
- Poisson.ComputeWinCount: the polynomial for the exponential is a parameter, with a result of at least 0; its accuracy is not covered.
- ComputeOnce.StepKeepsInv: the computation itself, genesis included, is one step with any result.
- Trimming of message chains, effective performance and the orders on chains (`msg_chain.rs`), which would only add comparisons.
- Batch operations of the AMT and the builders from iterators, loops over the operations proved here.
- Validation of blocks and syncing of headers in `tipset_syncer.rs`, which depend on the network, the clock and the store.
- Serialisation of keys and values, hash functions, signatures and all other I/O.
