# Verified models of the engine's allocator, codecs, replication and queues

A Dafny model of the parts of the engine that everything else runs on, with proofs of what they are for.
Verify it with `dafny verify dfyconfig.toml`.

| files | what they model |
|---|---|
| `bytes.dfy`, `bits.dfy` | bytes, machine words and their little-endian form; exclusive or, shifts and rotations |
| `tlsf_index.dfy`, `tlsf_layout.dfy`, `tlsf_lists.dfy`, `tlsf_steps.dfy`, `tlsf.dfy`, `tlsf_check.dfy`, `tlsf_theorems.dfy` | the two-level segregated-fit allocator: size arithmetic, physical blocks over word memory, free lists and bitmaps, the invariant that ties them together step by step, the operations, the library's own checks, and what the invariant means |
| `lz4_format.dfy`, `lz4_copy.dfy`, `lz4_decode.dfy`, `lz4_unsafe.dfy`, `lz4_greedy.dfy`, `lz4_encode.dfy`, `lz4_greedy_theorems.dfy` | the LZ4 block format, the overlapping copies, the optimised and the plain decoder, what the hash-table compressor decides, that compressor, and what its sequences are |
| `lz4_hc_tables.dfy`, `lz4_hc_longest.dfy`, `lz4_hc_search.dfy`, `lz4_hc.dfy`, `lz4_hc_optimal.dfy`, `lz4_hc_theorems.dfy` | the high-compression mode: what its tables say, what its shortcuts may skip, its match search, its two parsers and what they leave as literals |
| `xxh32.dfy`, `xxh32_mixing.dfy`, `xxh32_values.dfy`, `xxh64.dfy`, `xxh64_mixing.dfy`, `xxh64_values.dfy` | the one-shot and the resumable hashes, that they lose no difference, and some values |
| `frame_format.dfy`, `frame_decode.dfy`, `frame_theorems.dfy`, `frame_encode.dfy`, `frame_grammar.dfy`, `frame_reset.dfy`, `frame_lz4.dfy` | the frame format byte by byte, the resumable frame decoder, its independence of how it is called, the frame writer, what a complete frame is, what a reset leaves behind, and both over the LZ4 block codec |
| `net_snapshot.dfy`, `net_receive.dfy`, `net_ack.dfy` | entity snapshots and their differences, the receiver, and the acknowledgement protocol |
| `queue.dfy` | the semaphore ring buffer, as interleaved atomic steps and as an object |
| `ecs.dfy` | entity slots, generation-checked handles and queries |

How the models are built:

- Code that changes state is modelled as classes and methods over arrays and fields, each tied to a
  function or predicate over values; what the source promises is proved about those.
- Machine arithmetic is explicit: `size_t` in the allocator, the 32-bit and 64-bit words of the hashes,
  the wrapped length of XXH32, the frame's 64-bit size counter, and the `int` counters of the queue.
- Hash functions are parameters: the compressors are proved for any function into the table. Block
  codecs are parameters of the frame layer; `FrameLz4.CodecInverts` shows that the real ones qualify. Bit-scan
  instructions are modelled by what they compute. The network is the set of packets ever sent.
- `requires` clauses state what the source asserts or documents, apart from the limits below.

## Where the code does not do what its callers may expect

Each is modelled as the code has it, with a lemma that says exactly when it matters.

- `tlsf_malloc` of one of the seven largest sizes wraps to the smallest block (`TlsfIndex.AdjustCovers`,
  `TlsfIndex.AdjustWrapped`), and `tlsf_memalign` wraps at alignment 2^63 (`TlsfIndex.AlignedSizeCovers`), where its
  result need be neither aligned nor large enough (`TlsfTheorems.TopAlignment`).
- `tlsf_realloc` to a refused size returns the pointer as if it had been served: unchanged if the block is smaller
  than a header, and otherwise cut to size 0 in the middle of its pool (`Tlsf.Allocator.Realloc`,
  `TlsfTheorems.OversizedReallocBreaks`, `TlsfTheorems.CutShort`).
- The LZ4 decoders differ on some blocks that break the end-of-block rules: the plain one refuses all of them, the
  shortcut of the other takes a last sequence that is short and has enough input and output around it
  (`Lz4Unsafe.DecodersAgree`, at an input in `Lz4Unsafe.DecodersDiffer`).
- Resetting a frame context does not reset the count of content still expected: frames that neither state their size
  nor are skippable then fail (`FrameReset.StaleCount`, reached in `FrameReset.LeftOver`).
- `queue_push` leaves the ring after 2^31 items, except for one slot (`Queue.Fifo`, `Queue.WrapLeavesTheRing`,
  `Queue.SingleSlot`). Counters are taken to wrap in two's complement.
- Removing an entity before it becomes active makes it visible to queries for the rest of the frame
  (`Ecs.BecomesVisible`, at a run in `Ecs.PendingRemovedIsVisible`).
- `packet_add_entities` does not use the capacity it is given (`NetSnapshot.PacketFits`, exceeded in
  `NetSnapshot.PacketOverflows`).
- A receiver may not show the sender's snapshot after a packet: when two packets are read in one frame, or when it
  is ahead of the acknowledged snapshot (`NetReceive.DeltaApplied`, at inputs in `NetReceive.TwoPackets` and
  `NetReceive.AheadOfBaseline`).

## Model

| member | source | states |
|---|---|---|
| TlsfIndex.AdjustCovers | src/tlsf/tlsf.c:492-506 | an adjusted request is a multiple of 8 and, unless refused, covers the request exactly for the sizes whose rounding does not wrap the 64-bit word |
| TlsfIndex.AdjustWrapped | src/tlsf/tlsf.c:468-506 | for the largest requests the rounding wraps and the smallest block size comes back |
| TlsfIndex.MappingInRange | src/tlsf/tlsf.c:513-531 | the list indices of a size are in range if and only if the size is below block_size_max |
| TlsfIndex.MappingMonotone | src/tlsf/tlsf.c:513-531 | a larger size never maps to an earlier list |
| TlsfIndex.GoodFit | src/tlsf/tlsf.c:533-541 | every block in a list reached from the search index of a request is at least as large as the request |
| TlsfIndex.SearchMisses | src/tlsf/tlsf.c:533-541 | a block in an earlier list is smaller than the request plus its rounding term |
| TlsfIndex.AlignedSizeCovers | src/tlsf/tlsf.c:1123-1146 | the size searched for an aligned request holds request, alignment and a block header, if and only if the alignment is below 2^63 |
| TlsfIndex.NoGap | src/tlsf/tlsf.c:1123-1152 | small alignments need no gap |
| TlsfIndex.GapFits | src/tlsf/tlsf.c:1148-1171 | the leading gap is zero or large enough for a free block, the pointer behind it is aligned, and the rest of the block still holds the request |
| TlsfIndex.GapOfTopAlignment | src/tlsf/tlsf.c:1148-1171 | even at alignment 2^63 the gap is zero or large enough for a free block |
| TlsfLayout.SplitTiled | src/tlsf/tlsf.c:647-667 | splitting a block keeps the pools tiled up to their sentinels |
| TlsfLayout.SplitHeaders | src/tlsf/tlsf.c:647-667 | the words written by a split are the headers of both parts |
| TlsfLayout.MergeTiled | src/tlsf/tlsf.c:669-677 | absorbing the next block keeps the pools tiled |
| TlsfLayout.MergeHeaders | src/tlsf/tlsf.c:669-677 | the words written by a merge are the header of the merged block |
| TlsfLayout.SetFreeHeaders | src/tlsf/tlsf.c:453-466 | marking a block sets its own free bit and the previous-free bit and back link of its successor, and no other header |
| TlsfLayout.AddPoolTiled | src/tlsf/tlsf.c:980-1027 | a pool apart from the others extends the tiling by one block and a sentinel |
| TlsfLists.InsertLinks | src/tlsf/tlsf.c:605-624 | a block pushed to the front of a list leaves every list properly linked |
| TlsfLists.RemoveLinks | src/tlsf/tlsf.c:576-603 | unlinking a block leaves every list properly linked |
| TlsfLists.InsertBitmaps | src/tlsf/tlsf.c:605-624 | after a push a bitmap bit is set exactly when its list is not empty |
| TlsfLists.RemoveBitmaps | src/tlsf/tlsf.c:576-603 | after a removal a bitmap bit is set exactly when its list, or row of lists, is not empty |
| TlsfSteps.RemoveStepInv | src/tlsf/tlsf.c:626-632 | taking a free block out of its list keeps the whole invariant, with that block outstanding |
| TlsfSteps.InsertStepInv | src/tlsf/tlsf.c:634-639 | putting it back, by its size, keeps the whole invariant |
| TlsfSteps.MarkFreeStepInv | src/tlsf/tlsf.c:453-459 | marking as free keeps tiling, headers, lists and bitmaps, with the block still to be merged and listed |
| TlsfSteps.MarkUsedStepInv | src/tlsf/tlsf.c:461-466 | marking as used keeps the whole invariant |
| TlsfSteps.SplitStepInv | src/tlsf/tlsf.c:647-667 | a split keeps the whole invariant, with the remainder still to be listed |
| TlsfSteps.MergeStepInv | src/tlsf/tlsf.c:669-707 | merging two free neighbours keeps the whole invariant |
| TlsfSteps.GrowStepInv | src/tlsf/tlsf.c:1254-1261 | a used block that absorbs its free successor keeps the whole invariant |
| TlsfSteps.Settle | src/tlsf/tlsf.c:453-459 | once its neighbours are used, a detached free block breaks no rule about neighbours |
| TlsfSteps.PoolStepInv | src/tlsf/tlsf.c:980-1027 | the words written for a new pool keep the whole invariant |
| Tlsf.Allocator.constructor | src/tlsf/tlsf.c:797-818 | a constructed control structure satisfies the invariant with no pool |
| Tlsf.Allocator.RemoveFreeBlock | src/tlsf/tlsf.c:576-603 | the exact new lists, bitmaps and memory |
| Tlsf.Allocator.InsertFreeBlock | src/tlsf/tlsf.c:605-624 | the exact new lists, bitmaps and memory |
| Tlsf.Allocator.BlockRemove | src/tlsf/tlsf.c:626-632 | the list named by the block's size is the one it is taken from; the invariant is kept and live blocks are untouched |
| Tlsf.Allocator.BlockInsert | src/tlsf/tlsf.c:634-639 | the block goes into the list named by its size; the invariant is kept |
| Tlsf.Allocator.SearchSuitableBlock | src/tlsf/tlsf.c:543-574 | nothing is found only if every list from the index on is empty; otherwise the head of the first non-empty one |
| Tlsf.Allocator.BlockLocateFree | src/tlsf/tlsf.c:753-781 | a free block of the first list that has any, from the one where the search for the request starts, leaves its list; or every free block is in an earlier list and nothing changed |
| Tlsf.Allocator.BlockMergePrev | src/tlsf/tlsf.c:679-692 | a free predecessor is absorbed exactly when there is one |
| Tlsf.Allocator.BlockMergeNext | src/tlsf/tlsf.c:694-707 | a free successor is absorbed exactly when there is one |
| Tlsf.Allocator.BlockTrimFree | src/tlsf/tlsf.c:710-720 | a remainder that can be a block is split off and listed, otherwise nothing changes |
| Tlsf.Allocator.BlockTrimUsed | src/tlsf/tlsf.c:723-735 | a used block is cut to size when the rest can be a block, which is merged with a free successor and listed; otherwise nothing changes |
| Tlsf.Allocator.TrimToNothing | src/tlsf/tlsf.c:723-735 | told to keep nothing of a block of at least a header, it leaves that block with size 0, whatever its successor and the lists are |
| Tlsf.Allocator.BlockTrimFreeLeading | src/tlsf/tlsf.c:737-751 | the gap becomes a free block of its own and the rest is returned |
| Tlsf.Allocator.BlockPrepareUsed | src/tlsf/tlsf.c:783-794 | the block is trimmed and marked used; its payload and every other live block are as specified |
| Tlsf.Allocator.Malloc | src/tlsf/tlsf.c:1115-1121 | the invariant is kept; nothing changed, and then every free block is in a list before the search for the request, or a block of the first list that has any became a used block of the adjusted size up to less than a header more; the exact new layout; live payloads are untouched |
| Tlsf.Allocator.Memalign | src/tlsf/tlsf.c:1123-1178 | the same for aligned requests, with an aligned result of the right size for every power of two below 2^63; at every alignment, which block was taken, how it was split and what was carved; null only if no list has a block for the size with alignment and header |
| Tlsf.Allocator.Free | src/tlsf/tlsf.c:1180-1193 | the invariant is kept and the layout is the old one with this block free and merged with its free neighbours; null changes nothing |
| Tlsf.Allocator.Store | src/tlsf/tlsf.c:417-421 | writing inside the payload of a live block keeps the whole invariant |
| Tlsf.Allocator.CopyPayload | src/tlsf/tlsf.c:1242-1248 | copying whole words between the payloads of two live blocks keeps the invariant and copies every word |
| Tlsf.MoveCopiesBlock | src/tlsf/tlsf.c:1238-1246 | a block is moved only for a request that exceeds its size, so the memcpy is of the whole block: a whole number of words |
| Tlsf.Allocator.ReallocMove | src/tlsf/tlsf.c:1239-1249 | the whole contents move to a new block and the old one is freed, with the exact new layout, or nothing changes because no block is in reach of the request |
| Tlsf.Allocator.ReallocInPlace | src/tlsf/tlsf.c:1250-1261 | the block grows over its free successor or shrinks, keeping its contents up to the smaller size |
| Tlsf.Allocator.Realloc | src/tlsf/tlsf.c:1208-1264 | each case is decided: a null pointer is malloc, size 0 is free; a block that is large enough, or is with its free successor and that one's header word, stays where it is with its exact new size; any other moves to the block that malloc takes, and null comes back only if malloc has none; the first min(old, new) bytes and all other live blocks are kept; a size refused by the adjustment returns the pointer, with nothing changed if the block is smaller than a header and with the block cut to size 0 otherwise |
| Tlsf.FirstFit | src/tlsf/tlsf.c:543-574 | with the lists in between empty, the head of the first one that is not holds a block that no other in reach precedes |
| Tlsf.Allocator.AddPool | src/tlsf/tlsf.c:980-1027 | an aligned region of admissible size becomes one free block and a sentinel, any other is refused and nothing changes |
| Tlsf.Allocator.RemovePool | src/tlsf/tlsf.c:1029-1042 | a pool that is one free block leaves the lists and the tiling, the invariant is kept and every live block is untouched |
| TlsfLayout.DropPoolTiled | src/tlsf/tlsf.c:1029-1042 | without such a pool the others stay tiled |
| TlsfLayout.DropUndoesAdd | src/tlsf/tlsf.c:980-1042 | removing a pool that was just added restores the layout |
| TlsfTheorems.PoolAccounting | src/tlsf/tlsf.c:904-918 | in every state the blocks of a pool and their header words add up to the pool |
| TlsfTheorems.NothingLive | src/tlsf/tlsf.c:669-707 | a pool with no live block is one free block of its original size |
| TlsfTheorems.LiveDisjoint | src/tlsf/tlsf.c:411-421 | two live allocations share no byte |
| TlsfTheorems.ListsExact | src/tlsf/tlsf.c:605-639 | walking a list yields exactly the free blocks whose size maps to it |
| TlsfTheorems.FreeUndoesMalloc | src/tlsf/tlsf.c:1115-1193 | freeing what was just allocated restores the block structure |
| TlsfTheorems.FreeUndoesMemalign | src/tlsf/tlsf.c:1123-1193 | the same for an aligned allocation with a leading gap |
| TlsfTheorems.FailsOnlyWithout | src/tlsf/tlsf.c:753-781 | a request fails only if every free block is smaller than it and its rounding term |
| TlsfTheorems.ChosenFits | src/tlsf/tlsf.c:533-574 | the block that is chosen is large enough, and a free block in an earlier list is smaller than the request and its rounding term |
| TlsfTheorems.TopAlignment | src/tlsf/tlsf.c:1123-1178 | at alignment 2^63 the result is aligned exactly if the block found needs no gap or can be split behind it, and holds the request exactly if the block found was large enough there |
| TlsfTheorems.OversizedReallocBreaks | src/tlsf/tlsf.c:1208-1264 | a refused size reaches the trim of the old block: the pool stays tiled exactly if that block is smaller than a header |
| TlsfTheorems.CutShort | src/tlsf/tlsf.c:1250-1260 | once the words say size 0 at a block, every tiling they can stand for ends its pool there |
| TlsfTheorems.RefusedSizes | src/tlsf/tlsf.c:492-506 | which sizes are refused |
| TlsfCheck.Check | src/tlsf/tlsf.c:844-894 | the library's own check of bitmaps and lists returns 0 in every state that keeps the invariant |
| TlsfCheck.CheckPool | src/tlsf/tlsf.c:827-942 | the library's own walk over a pool returns 0 in every state that keeps the invariant |
| Lz4Format.ParseEncode | src/lz4/lz4.c:1820-1851 | a block written as token, lengths, literals and offset reads back as itself |
| Lz4Format.ParseExact | src/lz4/lz4.c:1820-1898 | a string of bytes reads as a block if and only if it is that block, written |
| Lz4Format.ParseEncodedSeq | src/lz4/lz4.c:1822-1887 | one sequence reads back as itself wherever it stands |
| Lz4Format.ParseEncodedTail | src/lz4/lz4.c:1284-1296 | so does the last run of literals |
| Lz4Format.ExtendUnique | src/lz4/lz4.c:1883-1887 | bytes that repeat those at the offset are the byte-by-byte match copy, whatever wrote them |
| Lz4Format.ExtendRepeats | src/lz4/lz4.c:1883-1887 | the byte-by-byte match copy repeats the bytes at the offset and keeps what was there |
| Lz4Format.ApplySnoc | src/lz4/lz4.c:1820-1888 | the meaning of one more sequence |
| Lz4Format.EncodeSnoc | src/lz4/lz4.c:1081-1196 | the encoding of one more sequence |
| Lz4Copy.WildCopyFrom | src/lz4/lz4.c:445-454 | whole steps from the input fill at least up to the end and keep what was before |
| Lz4Copy.WildCopyWithin | src/lz4/lz4.c:445-454 | whole steps inside the output continue the repetition at their distance |
| Lz4Copy.WildCopy32Within | src/lz4/lz4.c:502-510 | two copies of 16 a step do the same from 16 bytes back |
| Lz4Copy.SmallStart | src/lz4/lz4.c:479-490 | the first eight bytes at an offset below eight repeat the offset's period, by inc32table; an offset of 0 leaves zeros |
| Lz4Copy.DistanceTable | src/lz4/lz4.c:455-456 | both tables together move the source back by a multiple of the offset that is at least eight |
| Lz4Copy.RepeatsExtend | src/lz4/lz4.c:479-497 | copying from a multiple of the period back continues the period |
| Lz4Copy.MatchContinues | src/lz4/lz4.c:476-497 | eight bytes and wild copies at the table's distance make the whole match, for every offset |
| Lz4Copy.MatchCompletes | src/lz4/lz4.c:2323-2351 | so for every offset, zero included |
| Lz4Copy.CopyUsingOffsetBase | src/lz4/lz4.c:476-497 | the bytes up to the end repeat those at the offset, or are zero for an offset of 0 |
| Lz4Copy.CopyUsingOffset | src/lz4/lz4.c:515-553 | the same, with the pattern shortcut for offsets 1, 2 and 4 |
| Lz4Copy.CopyPattern | src/lz4/lz4.c:523-552 | a pattern of eight bytes repeated is the match copy |
| Lz4Decode.ReadVariableLength | src/lz4/lz4.c:1910-1935 | a length and the position behind it, or an error exactly when it is not complete before the limit |
| Lz4Decode.SafeMatchCopy | src/lz4/lz4.c:2271-2351 | the match is written as a byte loop would, with zeros for an offset of 0; it fails exactly when the offset leaves the output or the match reaches the last five bytes |
| Lz4Decode.TakenMore | src/lz4/lz4.c:1830-1894 | what every sequence of an acceptable block leaves room for, unless the shortcut takes it |
| Lz4Decode.WrittenIsApplied | src/lz4/lz4.c:1883-1887 | without zero offsets what the decoder writes is the content |
| Lz4Decode.FilledEnd | src/lz4/lz4.c:2138-2259 | a sequence that fills the output ends by the rules or is one the shortcut takes |
| Lz4Decode.SafeSequence | src/lz4/lz4.c:2138-2351 | one sequence of the safe loop: decoded as the format reads it, or refused only if the block is not acceptable |
| Lz4Decode.Shortcut | src/lz4/lz4.c:2151-2181 | so by the two-stage shortcut |
| Lz4Decode.SafeLiterals | src/lz4/lz4.c:2192-2268 | so from the careful literal copy on |
| Lz4Decode.FastSequence | src/lz4/lz4.c:2005-2131 | so by the fast loop, with its jumps into the safe loop |
| Lz4Decode.FastLiterals | src/lz4/lz4.c:2008-2036 | literals in the fast loop, or where they are left to the safe loop |
| Lz4Decode.FastMatch | src/lz4/lz4.c:2038-2130 | matches in the fast loop |
| Lz4Decode.Decompress | src/lz4/lz4.c:1943-2373 | a result n >= 0 means the input is a block and the first n bytes of the output are what it means, with zeros for offsets of 0; if they fill the output the block ends by the rules or by a sequence the shortcut takes, and every block that ends so, keeps its offsets inside the output and fits is accepted; all accesses stay inside both buffers |
| Lz4Unsafe.DecompressUnsafe | src/lz4/lz4.c:1801-1898 | on a block whose content fills the output the plain decoder returns the input size exactly if the end-of-block rules hold, and then the content |
| Lz4Unsafe.ChecksAreRules | src/lz4/lz4.c:1834-1894 | its two checks at a match are the end-of-block rules |
| Lz4Unsafe.DecodersAgree | src/lz4/lz4.c:1801-2373 | on every block whose content fills the output: the plain decoder accepts it exactly if it keeps the end-of-block rules, the optimised one also if it ends by a sequence the shortcut takes, and what either accepts it decodes to the content |
| Lz4Unsafe.DecodersDiffer | src/lz4/lz4.c:2142-2176 | a block of eighteen bytes that the optimised decoder accepts and the plain one refuses |
| Lz4Encode.Count | src/lz4/lz4.c:660-684 | the number of equal bytes before the limit, no more and no less |
| Lz4Encode.FindMatch | src/lz4/lz4.c:1015-1075 | the search of Lz4Greedy.Probe: same result, same position and match, same table; a reported match has four equal bytes at an earlier position at most 65535 back, far enough from the end, in both table modes |
| Lz4Encode.CatchUp | src/lz4/lz4.c:1077-1079 | the match extended backwards stays a match at the same offset, and goes as far as Lz4Greedy.Back |
| Lz4Encode.TestNext | src/lz4/lz4.c:1205-1265 | the two table entries written after a match, and whether the next position matches at once |
| Lz4Encode.EncodeLiterals | src/lz4/lz4.c:1081-1106 | token, literal length and literals are written, except exactly if a limited output is smaller than the check asks for |
| Lz4Encode.EncodeMatch | src/lz4/lz4.c:1124-1200 | offset and match length are written so that the output is the encoding of one more genuine sequence, extended as far as it goes, except exactly if a limited output is smaller than the check asks for |
| Lz4Encode.BeginNext | src/lz4/lz4.c:1201-1268 | behind a match a token without literals is begun exactly if the table names a match for the next position |
| Lz4Encode.EncodeChain | src/lz4/lz4.c:1107-1270 | a match and those that follow it without literals: the sequences, the position and the table of Lz4Greedy.ChainFrom, or failure exactly if one of them does not fit |
| Lz4Encode.WriteMatchLength | src/lz4/lz4.c:1183-1195 | length bytes written four at a time are the format's |
| Lz4Encode.RoomLiterals | src/lz4/lz4.c:1081-1106 | in unlimited outputs the wild copy of literals stays inside the bound |
| Lz4Encode.RoomMatch | src/lz4/lz4.c:1135-1196 | after every sequence the output is at most consumed + consumed/255 bytes long |
| Lz4Encode.RoomLast | src/lz4/lz4.c:1272-1299 | the last literals stay inside the bound |
| Lz4Encode.EncodeLast | src/lz4/lz4.c:1272-1299 | the output is a complete block of the input, or zero exactly if a limited output has no room for the last literals |
| Lz4Encode.CompressValidated | src/lz4/lz4.c:904-1308 | the block's sequences are those of Lz4Greedy.Items; zero exactly for inputs too large for the table mode and limited outputs in which they do not fit (Lz4Greedy.Fit); a block of the input that keeps every restriction of the format, without limit never above n + n/255 + 16 |
| Lz4Encode.CompressGeneric | src/lz4/lz4.c:1314-1349 | sizes out of range give zero, the empty input one zero byte, others the block of Lz4Greedy.Items |
| Lz4Encode.CompressFast | src/lz4/lz4.c:1352-1374 | for any hash function, acceleration and capacity: a block of the input, with the sequences of Lz4Greedy.Items; zero exactly for an input above the maximum or a capacity below LZ4_compressBound in which they do not fit |
| Lz4Encode.RoundTrip | src/lz4/lz4.c:904-2373 | LZ4_decompress_safe on whatever a compressor wrote returns exactly the input, for every capacity that holds it |
| Lz4Encode.FormatKept | src/lz4/lz4.c:243-252 | emitted offsets are in 1..65535, the last five bytes are literals and the last match starts twelve bytes before the end |
| Lz4Encode.EmptyContent | src/lz4/lz4.c:1330-1342 | only one block has empty content |
| Lz4Encode.CompressThenDecompress | src/lz4/lz4.c:1352-2373 | both run one after the other |
| Lz4Greedy.ChainCovers | src/lz4/lz4.c:1107-1270 | a chain of matches stands for the input up to its end |
| Lz4Greedy.FitJoin | src/lz4/lz4.c:1091-1106 | whether sequences fit is decided one after the other |
| Lz4GreedyTheorems.SearchIs | src/lz4/lz4.c:1015-1075 | the search finds the first position looked at whose table entry, the last position with the same hash or what the table held before, is near enough and has the same four bytes; it fails exactly if there is none |
| Lz4GreedyTheorems.NoSequence | src/lz4/lz4.c:1003-1075 | an input is stored as literals exactly if that is so at no position looked at |
| Lz4GreedyTheorems.RunIsFound | src/lz4/lz4.c:1003-1075 | thirteen bytes or more that begin with five equal ones are never stored as literals, whatever the hash and the acceleration |
| Lz4GreedyTheorems.RunItems | src/lz4/lz4.c:1003-1203 | a run of one byte becomes one literal, one match and five literals |
| Lz4GreedyTheorems.RunSize | src/lz4/lz4.c:1003-1299 | and takes ten bytes and one for every 255 of its length |
| Lz4GreedyTheorems.ThousandZeros | src/lz4/lz4.c:1081-1299 | the fourteen bytes of a thousand zero bytes |
| Lz4GreedyTheorems.TwoRuns | src/lz4/lz4.c:1201-1268 | two runs become two such sequences: the search goes on behind a match whose end is in the table |
| Lz4GreedyTheorems.ItemsMaximal | src/lz4/lz4.c:1077-1177 | every match goes on to the last five bytes or to a difference, and begins at the end of the one before, at the start of the input or behind a difference |
| Lz4HcTables.InsertedExact | src/lz4/lz4hc.c:133-142 | insertion links every position to the last one before it with the same hash, or says that there is none within reach |
| Lz4HcTables.LinksPut | src/lz4/lz4hc.c:134-138 | reusing a chain entry loses only links that are out of reach |
| Lz4HcLongest.PrecheckLosesNothing | src/lz4/lz4hc.c:290-290 | a candidate that differs in the two bytes compared first has no match longer than the known one, wherever that would start |
| Lz4HcLongest.ComparedWhole | src/lz4/lz4hc.c:291-299 | a candidate compared both ways as far as it goes has no longer match |
| Lz4HcLongest.PassedLink | src/lz4/lz4hc.c:414-415 | no position that a step down the chain skips has a longer match |
| Lz4HcLongest.SwapChain | src/lz4/lz4hc.c:318-340 | a match of the known length, and so every longer one, is on the chain of each of its positions, so that any of them may be followed |
| Lz4HcLongest.RunForward | src/lz4/lz4hc.c:378-383 | the jump to where two runs of a byte end together passes only shorter matches |
| Lz4HcLongest.RunBackward | src/lz4/lz4hc.c:389-405 | no position in a run matches longer than the length that is set without a comparison |
| Lz4HcSearch.Context.Insert | src/lz4/lz4hc.c:121-143 | both tables after inserting every position up to ip; all entries lie before it, and tables that link every position still do |
| Lz4HcSearch.CountBack | src/lz4/lz4hc.c:145-160 | how far two positions agree backwards, no more and no less |
| Lz4HcSearch.Compare | src/lz4/lz4hc.c:284-299 | a candidate becomes the best match only if it is one and is longer, and exactly then; no longer match with it is left |
| Lz4HcSearch.TestRepeat | src/lz4/lz4hc.c:345-353 | a confirmed pattern is one byte repeated, for the counted length |
| Lz4HcSearch.CountPattern | src/lz4/lz4hc.c:176-206 | the length of a run of one byte |
| Lz4HcSearch.ReverseCountPattern | src/lz4/lz4hc.c:208-226 | the same backwards |
| Lz4HcSearch.RunMatch | src/lz4/lz4hc.c:395-405 | two runs of the same byte match over the shorter one, so the length set without a comparison is right |
| Lz4HcSearch.Context.Segment | src/lz4/lz4hc.c:354-411 | the jump inside a run keeps the best match genuine and the search before ip |
| Lz4HcSearch.Context.GetWiderMatch | src/lz4/lz4hc.c:241-451 | whatever the tables hold and whichever shortcuts are on, the result is a genuine match that covers ip, starts no earlier than allowed and is longer than the known one, or the known one; and if the tables link every inserted position, equal bytes have equal hashes and the attempts last, no match within reach that covers ip is longer, chain swap and run shortcuts included |
| Lz4Hc.EncodeSequence | src/lz4/lz4hc.c:469-553 | a genuine match becomes one more sequence of the output, except exactly if a limited output has no room for it by the two checks |
| Lz4Hc.CorrectedOk | src/lz4/lz4hc.c:633-649 | after the correction the second match starts at least four bytes behind the first and keeps four bytes |
| Lz4Hc.AscendingOk | src/lz4/lz4hc.c:707-737 | with three ascending matches the first is cut to at least four bytes before the second, and the other two are again a valid pair |
| Lz4Hc.SqueezedOk | src/lz4/lz4hc.c:675-699 | when the second match is squeezed out, the third and its fallback are a valid state of _Search2 |
| Lz4Hc.ReplaceOk | src/lz4/lz4hc.c:701-704 | when the third match replaces the second, the pair is valid at _Search3 |
| Lz4Hc.BeforeSecondOk | src/lz4/lz4hc.c:659-667 | a first match cut before the second has at least four bytes |
| Lz4Hc.StepMain | src/lz4/lz4hc.c:598-603 | the main loop's search leads to _Search2 with the match found, and to the next position if it has fewer than four bytes: then, if attempts last, no position within 65535 before has the same four |
| Lz4Hc.StepSearch2 | src/lz4/lz4hc.c:605-631 | a wider match is looked for unless the end is near; _Search2 keeps the state of its matches, restores the first or replaces it as the source does, or finds no better one, and always advances |
| Lz4Hc.StepSearch3 | src/lz4/lz4hc.c:633-737 | _Search3 writes exactly the sequences, and goes on at exactly the state, that the source does for the match it found; it keeps its state, always advances, and fails only if a sequence has no room |
| Lz4Hc.CompressHashChain | src/lz4/lz4hc.c:558-770 | the block is the one that a run of the parser from the start to the end margin leaves, each step decided by a search; zero only if its sequences have no room; it keeps every restriction, inside the bound |
| Lz4HcTheorems.LiteralsAreBare | src/lz4/lz4hc.c:596-770 | over every run: a position before the end margin is left as a literal, more than four bytes before a match, only if its four bytes do not occur before within 65535: at every position where the attempts last, for a hash that is equal on equal bytes |
| Lz4HcTheorems.SequenceRepeats | src/lz4/lz4hc.c:558-770 | a sequence repeats four bytes within reach, so a block with sequences has a position whose four bytes occur before |
| Lz4HcTheorems.NoSequence | src/lz4/lz4hc.c:558-770 | where the attempts last, a block has no sequence if and only if no four bytes before the last twelve occur before within reach |
| Lz4HcTheorems.NoSequenceOptimal | src/lz4/lz4hc.c:1338-1392 | the optimal parser, too, leaves a block without sequences only then |
| Lz4HcTheorems.NotStored | src/lz4/lz4hc.c:806-868 | at every level an input in which four bytes occur twice, where the attempts last, is not stored as literals |
| Lz4HcTheorems.RunNotStored | src/lz4/lz4hc.c:806-868 | so at every level thirteen bytes or more that begin with five equal ones are not |
| Lz4HcOptimal.PriceIsSize | src/lz4/lz4hc.c:1283-1307 | the price of a sequence is the number of bytes it is written with |
| Lz4HcOptimal.FindLongerMatch | src/lz4/lz4hc.c:1315-1336 | a match at ip longer than asked for, or none; unless the attempts run out or decoding speed is favoured, the longest within reach |
| Lz4HcOptimal.StartTable | src/lz4/lz4hc.c:1400-1434 | the exact entries for a first match: literals, every length of the match with its price, literals; each is a literal or a genuine match that ends at its position |
| Lz4HcOptimal.Relax | src/lz4/lz4hc.c:1472-1530 | a match at a position: no position gets dearer, and up to the last one none is dearer than by literals from there or by each length of the match; entries stay genuine |
| Lz4HcOptimal.Explore | src/lz4/lz4hc.c:1436-1536 | the search over further positions keeps the table genuine and selects a valid last step, and every way back from it comes over a match |
| Lz4HcOptimal.Reverse | src/lz4/lz4hc.c:1538-1556 | the reverse traversal turns the table into a chain of literals and genuine matches from the start, with a match in it |
| Lz4HcOptimal.EncodePath | src/lz4/lz4hc.c:1558-1572 | that chain is written as sequences that cover the input without gap or overlap, one at least, or a sequence has no room |
| Lz4HcOptimal.Round | src/lz4/lz4hc.c:1384-1585 | a round of the main loop writes a sequence at least, or goes on by one position because no match starts there |
| Lz4HcOptimal.CompressOptimal | src/lz4/lz4hc.c:1338-1609 | the optimal parser writes a block of the input that keeps every restriction, inside the bound; without a sequence only if no position has a match, and zero only if its sequences have no room |
| Lz4HcOptimal.CompressHC | src/lz4/lz4hc.c:806-868 | so at every compression level, with zero only for an input above the maximum or a capacity below the bound in which the sequences have no room |
| Xxh32.OneShot | src/lz4/xxhash.c:351-389 | the loop over stripes and the finalisation compute the hash as its definition reads |
| Xxh32.Finalize | src/lz4/xxhash.c:290-348 | the switch over the remaining length processes words, then bytes, then mixes |
| Xxh32.StripesJoin | src/lz4/xxhash.c:467-508 | the stripes of a concatenation are those of the first part and then of its remainder with the second |
| Xxh32.LeftoverJoin | src/lz4/xxhash.c:467-508 | so are the bytes left over |
| Xxh32.Counted | src/lz4/xxhash.c:464-465 | the wrapped length and the large_len flag together remember what the digest needs, for every total length |
| Xxh32.State.constructor | src/lz4/xxhash.c:437-448 | a reset state has hashed nothing |
| Xxh32.State.Absorb | src/lz4/xxhash.c:467-509 | lanes and buffer after any input, whether it fills the buffer, empties it or passes through |
| Xxh32.State.Update | src/lz4/xxhash.c:451-512 | the state has hashed what it had and the input, for every input |
| Xxh32.State.Digest | src/lz4/xxhash.c:526-543 | the digest is the one-shot hash of everything hashed so far |
| Xxh32.HashInPieces | src/lz4/xxhash.c:437-553 | however the input is cut into updates the digest is the hash of the whole |
| Xxh32Mixing.Inverses | src/lz4/xxhash.c:263-267 | multiplication by each of the primes can be undone |
| Xxh32Mixing.RoundOneToOne | src/lz4/xxhash.c:269-275 | a round is one-to-one in the lane and in the word |
| Xxh32Mixing.AvalancheOneToOne | src/lz4/xxhash.c:278-287 | so is the final mixing |
| Xxh32Mixing.Process1Byte | src/lz4/xxhash.c:297-299 | so is a byte of the tail |
| Xxh32Mixing.StripesDiffer | src/lz4/xxhash.c:372-380 | a word of the stripes changes exactly one lane, whatever follows |
| Xxh32Mixing.HashDiffers | src/lz4/xxhash.c:290-389 | for every seed, two inputs of one length that differ in exactly one word, or in one byte behind the last word, have different hashes |
| Xxh32Mixing.ByteMatters | src/lz4/xxhash.c:290-389 | so changing any one byte changes the hash |
| Xxh32Values.HashOfNothing | src/lz4/xxhash.c:278-389 | the hash of nothing is 0x02CC5D05 |
| Xxh32Values.HashOfAbc | src/lz4/xxhash.c:290-389 | the hash of three letters is 0x32D153FF |
| Xxh32Values.HashOfTwenty | src/lz4/xxhash.c:290-389 | the hash of twenty bytes, a stripe and a word |
| Bits.ShiftMixes | src/lz4/xxhash.c:278-287 | a word mixed with itself, shifted, keeps all it holds |
| Bits.RotlOneToOne | src/lz4/xxhash.c:269-275 | a rotation loses nothing |
| Xxh64.OneShot | src/lz4/xxhash.c:810-852 | the 64-bit hash as its definition reads |
| Xxh64.Finalize | src/lz4/xxhash.c:700-808 | long words, a word, bytes, then mixing |
| Xxh64.StripesJoin | src/lz4/xxhash.c:912-968 | the stripes of a concatenation |
| Xxh64.State.Update | src/lz4/xxhash.c:912-969 | the state has hashed what it had and the input |
| Xxh64.State.Digest | src/lz4/xxhash.c:981-1003 | the digest is the one-shot hash of everything hashed so far, for totals below 2^64 |
| Xxh64.HashInPieces | src/lz4/xxhash.c:898-1012 | however the input is cut into updates the digest is the hash of the whole |
| Xxh64Mixing.RoundOneToOne | src/lz4/xxhash.c:672-678 | a round is one-to-one in the lane and in the word |
| Xxh64Mixing.StripesDiffer | src/lz4/xxhash.c:831-837 | a long word of the stripes changes exactly one lane, whatever follows |
| Xxh64Mixing.HashDiffers | src/lz4/xxhash.c:700-852 | for every seed, two inputs of one length that differ in exactly one long word, word or byte behind the stripes have different hashes: inputs below 32 bytes wherever they differ |
| Xxh64Mixing.ByteMatters | src/lz4/xxhash.c:700-852 | so changing any one byte behind the stripes changes the hash |
| Xxh64Values.HashOfNothing | src/lz4/xxhash.c:688-852 | the hash of nothing is 0xEF46DB3751D8E999 |
| Xxh64Values.HashOfAbc | src/lz4/xxhash.c:700-852 | the hash of three letters is 0x44BC2CF5AD770999 |
| Xxh64Values.HashOfLong | src/lz4/xxhash.c:680-852 | the hash of forty-four bytes: a stripe, a long word and a word |
| FrameFormat.FeedJoin | src/lz4/lz4frame.c:1584-2020 | reading two pieces one after the other is reading their concatenation |
| FrameFormat.FeedHeader | src/lz4/lz4frame.c:1290-1379 | a header read at once from a longer input is the header read byte by byte, errors included |
| FrameFormat.FeedHeadLong | src/lz4/lz4frame.c:1336-1347 | a header that turns out longer is collected to its full size |
| FrameFormat.FeedRaw | src/lz4/lz4frame.c:1702-1742 | an uncompressed block copied in one piece is the block copied byte by byte |
| FrameFormat.FeedPacked | src/lz4/lz4frame.c:1781-1861 | a compressed block is decoded once all of it is there |
| FrameDecode.Dctx.constructor | src/lz4/lz4frame.c:1229-1238 | a fresh context stands at the start of a frame |
| FrameDecode.Dctx.Reset | src/lz4/lz4frame.c:1273-1279 | a reset context stands at the start of a frame, with the count of expected content as it was |
| FrameDecode.Dctx.DoGetFrameHeader | src/lz4/lz4frame.c:1589-1600 | header shortcut or first bytes into the buffer |
| FrameDecode.Dctx.DoStoreFrameHeader | src/lz4/lz4frame.c:1603-1616 | header bytes collected over calls |
| FrameDecode.Dctx.StartBlock | src/lz4/lz4frame.c:1670-1700 | what a block header leads to |
| FrameDecode.Dctx.DoCopyDirect | src/lz4/lz4frame.c:1702-1742 | as much of an uncompressed block as there is input and room, with both checksums and the size count kept up |
| FrameDecode.Dctx.DoGetBlockChecksum | src/lz4/lz4frame.c:1745-1779 | the checksum of an uncompressed block, whole or in pieces |
| FrameDecode.Dctx.DecodeBlock | src/lz4/lz4frame.c:1810-1900 | a complete block is checked and decoded, into the output or into the buffer to be flushed |
| FrameDecode.Dctx.DoStoreCBlock | src/lz4/lz4frame.c:1793-1808 | block bytes collected over calls |
| FrameDecode.Dctx.DoFlushOut | src/lz4/lz4frame.c:1903-1923 | decoded bytes go out as there is room, none lost and none twice |
| FrameDecode.Dctx.DoGetSuffix | src/lz4/lz4frame.c:1925-1939 | the size check, and the content checksum if it is all there |
| FrameDecode.Dctx.DoStoreSuffix | src/lz4/lz4frame.c:1942-1971 | the content checksum collected over calls |
| FrameDecode.Dctx.DoStoreSFrameSize | src/lz4/lz4frame.c:1985-2006 | the size of a skippable frame collected over calls |
| FrameDecode.Dctx.DoSkipSkippable | src/lz4/lz4frame.c:2008-2018 | skipping over calls |
| FrameDecode.Dctx.Decompress | src/lz4/lz4frame.c:1555-2057 | one call does to the frame what reading the consumed bytes one by one does; it delivers exactly the new content, and stops early only when the output is full; an error is the error of the input read byte by byte |
| FrameTheorems.SessionAchieves | src/lz4/lz4frame.c:1540-1554 | a sequence of calls achieves what reading its input byte by byte achieves |
| FrameTheorems.EndsOnce | src/lz4/lz4frame.c:1925-1971 | a frame ends at one place only |
| FrameTheorems.ChunkIndependent | src/lz4/lz4frame.c:1536-2057 | two ways of cutting input and output into calls that both reach the end consume the same and deliver the same; one cannot fail where the other ends; errors are the same |
| FrameTheorems.OneCall | src/lz4/lz4frame.c:1536-2057 | a single call with the whole stream and room beyond the content does what any session did |
| FrameReset.StaleCount | src/lz4/lz4frame.c:1273-1279 | over every frame that a fresh context reads to its end: with a count left over it reads the same if it is skippable or states its size or the count is zero, and otherwise fails at its end mark |
| FrameReset.BodyStale | src/lz4/lz4frame.c:1643-1928 | so from any point in the body of a frame, whatever its blocks and checksums |
| FrameReset.LeftOver | src/lz4/lz4frame.c:1290-1379 | a frame that states its size, given up after its header, leaves that size as the count |
| FrameEncode.HeaderParses | src/lz4/lz4frame.c:753-785 | the written header parses to the chosen parameters |
| FrameEncode.MakeBlock | src/lz4/lz4frame.c:825-850 | a written block reads back as its content; it takes its header, its checksum and the smaller of the compressed and the plain bytes |
| FrameEncode.OptimalBlockSize | src/lz4/lz4frame.c:351-363 | the first block size that holds the input, if it is smaller than the requested one |
| FrameEncode.CompressBlocks | src/lz4/lz4frame.c:930-1046 | the written blocks read back as the input, and take exactly what the blocks take one by one, each compressed if that makes it smaller |
| FrameEncode.CompressFrame | src/lz4/lz4frame.c:420-465 | refused exactly below LZ4F_compressFrameBound; otherwise the written frame reads back as a complete frame whose content is the input, its size is exact, and it takes no more than that bound |
| FrameEncode.BoundIs | src/lz4/lz4frame.c:371-407 | the bound is a largest header, the input, a header and checksum for each block, and the end |
| FrameEncode.BlocksBounded | src/lz4/lz4frame.c:825-850 | no block takes more than its header, its checksum and its plain bytes |
| FrameGrammar.CompleteFrames | src/lz4/lz4frame.c:1290-2020 | a frame is read to its end, as this content, if and only if it is a skippable frame, or a header with its checksum, blocks with theirs, the end mark and the checksum of the content, of the size stated |
| FrameGrammar.TextReads | src/lz4/lz4frame.c:1290-2020 | such a text reads to its end as its content |
| FrameGrammar.TextShape | src/lz4/lz4frame.c:1290-2020 | whatever reads to its end is such a text |
| FrameGrammar.ChecksumAtEnd | src/lz4/lz4frame.c:1925-1971 | the last four bytes of a frame with a content checksum are the little-endian checksum of what it delivered |
| FrameGrammar.BadContentChecksum | src/lz4/lz4frame.c:1958-1962 | with any other four bytes there the error is contentChecksum_invalid |
| FrameGrammar.BadBlockChecksum | src/lz4/lz4frame.c:1766-1835 | with any other four bytes behind a block, plain or compressed, it is blockChecksum_invalid, whatever follows |
| FrameGrammar.BadHeaderChecksum | src/lz4/lz4frame.c:1359-1361 | with any other byte at the end of a header it is headerChecksum_invalid, whatever follows |
| FrameGrammar.BadContentSize | src/lz4/lz4frame.c:1925-1928 | content that does not have the size stated is frameSize_wrong |
| FrameGrammar.HeadShape | src/lz4/lz4frame.c:1290-1379 | a header that parses is the text of what it describes |
| FrameGrammar.WrittenHeader | src/lz4/lz4frame.c:753-785 | the header of the frame writer is such a text |
| FrameLz4.CodecInverts | src/lz4/lz4frame.c:832-850 | the LZ4 block decoder inverts the LZ4 block compressors as the frame layer needs it, whatever the hash and the table contents |
| FrameLz4.FrameRoundTrip | src/lz4/lz4frame.c:1536-2057 | calls on a written frame never fail, deliver a prefix of the input, and when they report the end have read exactly the frame and delivered exactly the input |
| FrameLz4.CompressLz4Frame | src/lz4/lz4frame.c:420-465 | refused exactly below the bound; a frame written with the LZ4 block codec has its exact size and comes back as its input through any sequence of calls |
| FrameLz4.CodecBounded | src/lz4/lz4frame.c:1843-1847 | the LZ4 block decoder never gives more than it was allowed |
| FrameLz4.DecompressLz4Frame | src/lz4/lz4frame.c:1555-2057 | one call on a fresh context with room beyond the content delivers the content of the whole frame and reports its end |
| NetSnapshot.SnapshotEntities | src/net.c:415-449 | the ring slot of the sequence number holds the records of the valid entities that fit, and stays inside its buffer |
| NetSnapshot.FittingTakes | src/net.c:421-446 | an entity before the first invalid one is taken if and only if it fits behind those taken before it, whatever did not fit before |
| NetSnapshot.FittingStops | src/net.c:421-422 | and none behind the first invalid one |
| NetSnapshot.LeftOutOnlyIfSame | src/net.c:478-497 | data is left out only for an entity whose bytes equal those in the baseline |
| NetSnapshot.PacketFits | src/net.c:451-504 | packets stay inside the 1016 bytes that packet_send passes exactly if snapshot size and number of entities, less the data left out, do; with no baseline, and for all baselines together, exactly if size and number do |
| NetSnapshot.PacketSize | src/net.c:467-503 | a packet is one byte per entity longer than the snapshot, less the data left out |
| NetSnapshot.PacketOverflows | src/net.c:512-520 | thirty-two entities of twenty-three replicated bytes fit the snapshot and overflow the first packet by eight bytes |
| NetSnapshot.AddEntities | src/net.c:471-504 | the bytes written are the difference of both snapshots, whatever their records |
| NetSnapshot.RingStep | src/net.c:415-418 | the ring holds the last 256 snapshots and no slot passes for an older one |
| NetSnapshot.PacketAddEntities | src/net.c:451-504 | the packet is the difference to the acknowledged snapshot while the ring holds it, and the whole snapshot otherwise |
| NetReceive.ReceiveOk | src/net.c:530-568 | every entity of a packet keeps each live slot the first with its sequence number |
| NetReceive.ReadEntity | src/net.c:532-582 | an entity is found or made, and its components are overwritten when they were sent |
| NetReceive.RemoveUnseen | src/net.c:585-594 | exactly the entities not seen in this frame are marked for removal |
| NetReceive.ReadEntities | src/net.c:525-595 | the reader consumes exactly the entries that were packed |
| NetReceive.TakeNext | src/net.c:532-582 | after one entry its entity shows the data sent, or what the receiver had when none was, and the others are left alone |
| NetReceive.DeltaApplied | src/net.c:451-595 | whatever a receiver with room shows: afterwards it shows every entity with the data sent or what it had, and exactly the current snapshot if and only if no gone entity was seen in this frame already and what it had is right wherever data was left out |
| NetReceive.DeltaRoundTrip | src/net.c:451-595 | a receiver that has the baseline shows exactly the sender's current snapshot afterwards, if and only if no entity that is gone was seen in this frame already; others that are missing are marked for removal |
| NetReceive.TwoPackets | src/net.c:597-623 | two packets in one frame: an entity that only the first one names stays |
| NetReceive.AheadOfBaseline | src/net.c:459-489 | a receiver that shows a later snapshot than the baseline keeps data that has changed back since |
| NetReceive.ShowingIsReady | src/net.c:525-595 | a receiver that shows exactly the acknowledged snapshot has the baseline, when old and new entities together have slots |
| NetReceive.Replicate | src/net.c:451-595 | the same from the sender's ring to the receiver's slots, bytes included |
| NetAck.RunInv | src/net.c:152-166 | every run of both peers keeps the invariant, and neither side's numbers decrease |
| NetAck.RunSafe | src/net.c:506-623 | in every run over a lossy, duplicating, reordering network: A's acknowledged number <= B's incoming number <= A's sequence number, and every acknowledged snapshot was applied by the peer |
| NetAck.DrainedIs | src/net.c:597-623 | draining a queue makes the incoming number the largest one drained, if it is larger than before, with the acknowledgement of that packet; nothing newer is dropped |
| NetAck.Acknowledged | src/net.c:506-623 | when one side's packet arrives and then the other's answer, the first knows that its snapshot of this frame was taken in |
| NetAck.Connection.SendPacket | src/net.c:506-523 | the packet carries the frame number and the last number taken in |
| NetAck.Connection.ReceivePackets | src/net.c:597-623 | a queue of packets is drained in order, and packets that are not newer are dropped |
| NetAck.Connection.EndFrame | src/net.c:165-165 | the frame number goes up by one and the packet of the next frame is due |
| Queue.StepInv | src/queue.c:38-53 | every atomic step of either thread keeps counters, permits and slots in order, for the first 2^31 items |
| Queue.RunInv | src/queue.c:38-53 | so does every interleaving, and no index leaves the ring, for up to 2^31 pushes |
| Queue.Fifo | src/queue.c:38-86 | in every interleaving of up to 2^31 pushes what was popped is a prefix of what was pushed, indices stay in the ring, no unread slot is overwritten, permits are conserved and no semaphore overflows |
| Queue.NeverStuck | src/queue.c:38-53 | some step can always be taken |
| Queue.TryPushFails | src/queue.c:64-74 | a push gives up exactly when every slot is taken by an item not yet returned |
| Queue.TryPopFails | src/queue.c:76-86 | a pop gives up exactly when nothing is announced that is not being popped |
| Queue.WrapLeavesTheRing | src/queue.c:38-44 | for every ring of two slots or more there is a run in which the push after 2^31 others, or the next one when the capacity divides 2^31, takes a negative index |
| Queue.SingleSlot | src/queue.c:38-53 | a ring of one slot is never left, however often it is used |
| Queue.Ring.TryPush | src/queue.c:64-74 | uninterrupted, the item is appended exactly when there is room |
| Queue.Ring.TryPop | src/queue.c:76-86 | uninterrupted, the oldest item comes out exactly when there is one |
| Ecs.StaysInvalid | src/ecs.c:95-128 | once a handle that was issued is invalid it stays so in every run, whoever reuses the slot |
| Ecs.DiesWhen | src/ecs.c:57-70 | a valid handle becomes invalid exactly at the update after its removal |
| Ecs.AddedIsNew | src/ecs.c:95-109 | a new handle is valid at once for callers that allow pending additions, and none is returned exactly when all slots are taken |
| Ecs.HandlesUnique | src/ecs.c:95-109 | no later call returns the same handle |
| Ecs.RunHandles | src/ecs.c:95-109 | in every run from the creation on no two handles are the same |
| Ecs.PendingRemovedIsVisible | src/ecs.c:111-128 | an addition that is removed at once is visible to queries until the next update |
| Ecs.BecomesVisible | src/ecs.c:111-163 | between updates an entity becomes visible exactly by a removal, with pending additions allowed, while it is pending |
| Ecs.VisibleFromExact | src/ecs.c:152-163 | the visible entities are listed once each, in increasing order, and no others |
| Ecs.MaskSelects | src/ecs.c:152-157 | a mask of one component selects the entities that have it, two masks together those that both select, no mask everybody |
| Ecs.QueryOneMore | src/ecs.c:152-157 | an entity is visible to a query for one more component if and only if it has that one, too |
| Ecs.EcsTables.Update | src/ecs.c:57-70 | pending additions become active and pending removals unused, nothing else |
| Ecs.EcsTables.Add | src/ecs.c:95-109 | the first unused slot is taken with a new sequence number |
| Ecs.EcsTables.Remove | src/ecs.c:111-121 | a valid entity is marked, an invalid handle changes nothing |
| Ecs.EcsTables.IsRefValid | src/ecs.c:123-128 | validity by index, sequence number and state |
| Ecs.EcsTables.Next | src/ecs.c:152-163 | the query moves to the next visible entity, or to none |
| Ecs.EcsTables.Visit | src/ecs.c:140-163 | a query loop over a fixed state visits exactly the visible entities, once each, in increasing order |

## Left out

- Tlsf.Allocator.AddPool: a pool of exactly block_size_max bytes is excluded, because its list index is out of the range that the code handles (`TlsfIndex.MappingInRange`).
- Tlsf.Allocator.Realloc: after a refused size has cut a block to nothing only that block's header and the result are stated, because the pool is not one any more.
- Tlsf.Allocator.Store: memory is a map of 8-byte words whose values, like addresses, are unbounded integers; stores of single bytes are not modelled.
- TLSF: the walker callback of `tlsf_walk_pool`, the 32-bit configuration and the wrapper in `heap.c`.
- Lz4Decode.Decompress: partial decoding, prefixes and dictionaries are not modelled; which blocks that break the end-of-block rules are accepted is stated for outputs that are filled exactly.
- Lz4Unsafe.DecompressUnsafe: blocks with zero offsets are excluded, for which it leaves the output as it finds it.
- Lz4Encode.CompressFast: the pointer table mode, dictionaries, streaming, reused tables and fill-output mode are not modelled.
- Lz4HcSearch.Context.GetWiderMatch: dictionaries and the 32-bit wrap of indices are not modelled; that no match is longer is stated for exhaustive searches only (`Lz4HcSearch.Exhaustive`): not when attempts run out, when decoding speed is favoured, or for a search that may start before ip and uses the shortcut for runs, where positions passed over might extend further back.
- Lz4HcTheorems.LiteralsAreBare: where the attempts do not last nothing is said about literals; which of several matches of the same length a search reports is left to the tables (`Lz4HcSearch.Best`).
- Lz4HcSearch.CountPattern: modelled for a repeated byte, the only pattern it is called with; pattern rotation belongs to dictionaries.
- Lz4HcOptimal.Explore: that the chosen path is the cheapest is not stated; prices are exact for single sequences (`Lz4HcOptimal.PriceIsSize`).
- Xxh64Mixing.HashDiffers: not stated for a difference in the stripes, which stays in one lane (`Xxh64Mixing.StripesDiffer`) until the lanes are merged; merging is not one-to-one in a lane.
- Xxh64.State.Digest: nothing is said for totals of 2^64 bytes or more, which the one-shot function cannot be given; big-endian reading is not modelled.
- FrameDecode.Dctx.Decompress: linked blocks and their history, dictionaries, decompress options, `LZ4F_getFrameInfo` and allocation failure are not modelled; a header with linked blocks stops the model with an error of its own.
- FrameEncode.CompressFrame: linked blocks and buffered updates without autoFlush are not modelled; inputs of 2^47 bytes or more are excluded, for which the bound may wrap.
- NetReceive.Replicate: old and new entities together must have slots, and no entity of the snapshot may be on its way out at the receiver. Component arrays are one run of bytes per entity.
- NetSnapshot.PacketAddEntities: an acknowledged number of -1 means no baseline; the code looks into slot 255 for it, whose sequence number is never -1.
- NetAck.RunSafe: one connection epoch; that both peers show the same over whole runs is not stated, because it does not follow (`NetReceive.AheadOfBaseline`); sockets, threads, timeouts and the wrap of frame numbers are not modelled.
- Queue.Fifo: one pushing and one popping thread; `dequeue` and several threads on one side are not modelled.
- Ecs.StaysInvalid: sequence numbers are unbounded; component storage is not modelled.
- File, GPU, audio, window and timer code, the games, JSON output in `trace.c`, and floating-point maths.
