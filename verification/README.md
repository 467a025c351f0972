# Proofs about the coursework programs

This project models six components of the repository in Dafny and proves what each of them is for.

* **Radix tree** (`A6/handout/radix.c`). A path-compressed binary trie that is a sorted multiset of
  non-negative ints. `BitPositions` holds machine words and the one-hot masks, `SortedNumbers` the ascending
  sequences the tree stands for, `RadixTrie` the shape of the tree as a value, `RadixTree` the tree in the
  heap with its moving cursor, and `RadixCommands` the command loop of `main`. `NodeCalls` and
  `RadixAllocation` join the tree's calls of allocate and release to the allocator.
* **Small-block allocator and decimal text** (`A6/handout/lib.c`): `Allocator` and `Decimal`.
* **SHA-256** (`A4/handout/src/sha256.c`): `Sha256Spec` restates FIPS 180-4, `Sha256` is the streaming code.
* **Peers** (`A4/handout/python/first_peer/peer.py`): `PeerNetwork` is the list of known peers and the locked
  regions that change it, `Utf8` and `Wire` the byte formats, `Membership` the protocol by which peers join,
  as a transition system over all interleavings, `Quiescence` why its gossip ends, `BlockTransfer` the replies
  in shuffled blocks, `BlockOutcomes` what the receiver makes of any replies, intact or not, and `WireLayout`
  where everything lies in the messages.
* **Assembly text table** (`A5/src/assembly.c`): `AssemblyTable`, a hash table with a window of four slots.
* **RISC-V simulator** (`A5/src/memory.c`, `A5/src/simulate.c`, `A5/src/decode_helpers.c`): `PagedMemory`,
  `Decode`, `Simulator`, against the instruction set written down in `Rv32` (RISC-V Unprivileged ISA,
  sections 2.2 to 2.6). `WordValues` and `Rv32Meaning` say what its words and instructions mean as numbers and
  which words the listings of the repository have for them. `Departures` says where code and ISA differ.

`dafny verify dfyconfig.toml` checks everything.

## How the model is built

Code that works in place is a class whose methods update its fields, or a method over an array; its
contract ties the new state to a function of the old one, and what the source promises is proved about that
function. Code made of expressions is functions and lemmas.

* Radix tree: ints are the naturals their bits spell, and `And`, `Or`, `Xor` and shifts are defined on them,
  so that the order of numbers and the order of their bits can be compared. The C union is two groups of
  fields, of which `bitPos` selects one. The cursor `struct node**` is a `Slot`: the global variable or a
  link of a node. `live` is the set of nodes between `allocate` and `release`, and `calls`, to which only these
  two append, lists the calls. On the allocator, writes to fields may stand anywhere between them.
* Allocator: memory is the map from word addresses to words, pointers and ints have four bytes, and the
  zero address is `NULL`. The ghost part of the state (block sizes, free lists, live blocks) is tied to the
  real words by `Consistent`. A program may also write words into the blocks it holds, anywhere but in
  their first word and aligned or not; a word that a write overlaps only in part is no longer known.
* SHA-256: the little-endian build with a 64-bit `long`. `unroll` is `SHA256_UNROLL`, `fast` selects
  `SHA256_FAST_COPY`. The round constants are listed once, in `Sha256Spec`, for the code and for FIPS 180-4.
  `Sha256Standard` says what every function and constant restated from the standard means, bit by bit or as
  numbers, and `Sha256Example` works out the digest of "abc".
* Peers: an address is the pair of ip and port that `ip:port` prints; the own entry has timestamp -1. Entries
  are tuples, so noting when a known sender was last heard raises, the exception is swallowed, and no stale
  entry is removed in that call (`A4/handout/python/first_peer/peer.py:131`); the comment there says the
  timestamp is updated. The model follows the code: `ExpiryExact` says when the two agree and
  `RecentPeerDropped` shows a peer that is dropped ten seconds after it spoke.
* Membership: a step is one locked region of a handler, or one message sent or read. No connection is lost
  and no entry is silent for longer than the limit (`InTime`); then the expiry region changes nothing, so it is
  one step with the region after it. Names are those that a message can carry (`Plain`); `Wire.PeerExact` says
  that no others with a port can.
* Byte formats: names are text of any characters, and `Utf8` is their encoding. A name is padded to 16
  characters, not bytes, so a character of more than one byte pushes back what follows it; the model follows
  the code, and `MessageArrives`, `PeerExact` and `PeersRoundTrip` say exactly what is read as it was sent.
* Block transfer: `recv` delivers as many bytes as it is asked for while there are any. The hash is any
  function to 32 bytes. `random.shuffle` is any list with the same blocks. A wrong hash of the whole is only
  printed by the code (`A4/handout/python/first_peer/peer.py:545`), so it does not matter here either.
* Assembly table: a table slot is a value; the text of a slot that `calloc` cleared is modelled as empty.
* Memory: an address is an int and only its value modulo 2^32 matters; `false` from an access stands for
  the exit on an unaligned address.
* Simulator: registers x0 to x31 are an array in which x0 has a slot like any other. The C code departs from
  the ISA in three ways. The first source register is masked with 0xF. Every shift to the right is of a signed
  int. JALR reads its register before the slot of x0 is cleared, and does not clear the lowest bit of its
  target. `Departures.Coded` is what the code does in place of each instruction, and the step theorem says so
  for all of them; `Departures.Supported` says from which states that is what the ISA does, and is exact for
  every instruction. `Departures.Ordinary` is a part of the instruction set that needs no look at the code.
  Addition and subtraction of ints that overflow, and the left shift of a negative int, which C leaves
  undefined, are taken to wrap.
* Start of a run: `memset` clears 32 bytes, that is eight of the 32 registers (`A5/src/simulate.c:14`), so x8
  to x31 start with arbitrary values. The ISA gives no initial values, so this is not a departure from it.

## Model

| member | source | states |
|---|---|---|
| BitPositions.MasksSelect | A6/handout/radix.c:17-25 | each mask helper selects exactly the bit positions its comment names |
| BitPositions.BitRangeSelects | A6/handout/radix.c:26-27 | bit_range(h, l) selects exactly the positions in (l, h] |
| BitPositions.OneHotTest | A6/handout/radix.c:53-75 | masking with a one-hot position tells whether that bit is set |
| BitPositions.SplitOrders | A6/handout/radix.c:75-78 | the highest position at which two numbers differ decides their order, which is why zero-children come first |
| BitPositions.LeafNumbers | A6/handout/radix.c:99-103 | the two numbers a leaf writes are the even and the odd one with the same upper bits |
| SortedNumbers.InsertKeepsSorted | A6/handout/radix.c:31-88 | adding a number to an ascending sequence leaves it ascending |
| SortedNumbers.InsertAddsOne | A6/handout/radix.c:31-88 | exactly one occurrence of the number is added |
| SortedNumbers.InsertIsTheOnlyOne | A6/handout/radix.c:31-88 | an ascending sequence with one more occurrence is determined by that, so the specification of add_number is not one of several |
| RadixTrie.Node.MakeLeaf | A6/handout/radix.c:40-43 | a new leaf counts its number once, on the side of its lowest bit |
| RadixTrie.Node.MakeBranch | A6/handout/radix.c:57-67 | an injected node keeps the old subtree on one side and leaves the side of the new number empty |
| RadixTrie.NumbersAgree | A6/handout/radix.c:7-11 | every number below a node is a 31-bit number that agrees with the node's number above its bit position |
| RadixTrie.ChildNumbers | A6/handout/radix.c:6-11 | the two children of a node are split by the node's bit |
| RadixTrie.FlattenSorted | A6/handout/radix.c:91-123 | the order in which the tree is drained is ascending, for every well-formed tree |
| RadixTrie.WfNotEmpty | A6/handout/radix.c:106-119 | a node is there if and only if there are numbers below it |
| RadixTrie.WfReplace | A6/handout/radix.c:38-67 | changing what hangs at the cursor keeps the whole tree well-formed when the new part fits there |
| RadixTree.Tree.constructor | A6/handout/radix.c:13 | the empty tree is valid and holds nothing |
| RadixTree.Tree.RangeDifference | A6/handout/radix.c:47-48 | diff holds exactly the differing bits among the levels the node's compression skips |
| RadixTree.Tree.AgreeDownTo | A6/handout/radix.c:51-53 | the loop stops at the topmost differing bit: above it the two numbers agree |
| RadixTree.Tree.AddLeaf | A6/handout/radix.c:36-44 | a leaf put at an empty link adds one occurrence and keeps the tree valid |
| RadixTree.Tree.AddBranch | A6/handout/radix.c:54-68 | injecting a node above a subtree changes no contents, keeps the tree valid and leaves an empty link where the number belongs |
| RadixTree.Tree.AddAtLeaf | A6/handout/radix.c:80-86 | counting at a leaf that agrees with the number adds one occurrence |
| RadixTree.Tree.Search | A6/handout/radix.c:31-88 | the cursor loop ends for every number below 2^31, with one more occurrence of it and every invariant kept |
| RadixTree.Tree.AddNumber | A6/handout/radix.c:31-88 | the ascending contents become those with the number inserted; the live blocks stay exactly the nodes of the tree |
| RadixTree.Tree.LeafDrained | A6/handout/radix.c:96-110 | taking from a leaf takes from the front of its numbers, and the leaf goes when none is left |
| RadixTree.Tree.BranchDrained | A6/handout/radix.c:111-119 | taking first from zero and then from one takes from the front of the branch's numbers, and pruning keeps the invariant |
| RadixTree.Tree.Emit | A6/handout/radix.c:98-105 | a number is written as often as it is counted or the buffer has room, and nothing else in the buffer changes |
| RadixTree.Tree.TakeFromLeaf | A6/handout/radix.c:96-105 | the even number is written before the odd one, and what was written is what was counted off |
| RadixTree.Tree.PruneLeaf | A6/handout/radix.c:106-110 | a leaf is unlinked and released if and only if it counts nothing any more |
| RadixTree.Tree.TakeAtLeaf | A6/handout/radix.c:96-110 | the leaf's numbers go to the buffer; an empty leaf is unlinked and released |
| RadixTree.Tree.Prune | A6/handout/radix.c:115-119 | a branch is unlinked and released if and only if both its subtrees are gone |
| RadixTree.Tree.TakeNumbers2 | A6/handout/radix.c:91-123 | exactly the first numbers of the subtree that fit are written in order, the rest stays in a well-formed subtree, and each removed node is released |
| RadixTree.Tree.TakeNumbers | A6/handout/radix.c:125-129 | the min(max_nums, size) smallest numbers are in the buffer in ascending order, and the tree holds the rest |
| RadixTree.Tree.ReleaseTree | A6/handout/radix.c:131-140 | every node of the tree is given back once, and none is read after it was given back |
| RadixTree.Tree.Dispose | A6/handout/radix.c:191 | after the final cleanup no block is live |
| NodeCalls.SetsBetween | A6/handout/radix.c:31-138 | writing fields of live nodes between the calls of allocate and release, and nothing else, keeps a proper sequence of calls proper |
| RadixAllocation.Place | A6/handout/lib.c:141-201 | every proper sequence of the tree's calls is an allowed run of the allocator: no misuse, no failed allocation, and every live node has a block of its own with room for it |
| RadixAllocation.OperationOfCall | A6/handout/lib.c:141-201 | operation i is the request, release or write of call i: taking a node requests `sizeof(struct node)` bytes and gets the block chosen then, giving it back releases that very block, and setting a field writes at its place in that block |
| RadixAllocation.NothingLeaks | A6/handout/radix.c:191 | when all nodes have been given back, the allocator's live blocks are those from before |
| RadixAllocation.FieldsKept | A6/handout/radix.c:5-12 | whatever nodes are taken, given back and written to in between, the words of a live node's block hold what was last set in its fields |
| RadixAllocation.FieldsInOrder | A6/handout/radix.c:8-12 | the two ints of a node come first, and then the two words of the union |
| RadixCommands.Conservation | A6/handout/radix.c:156-187 | over every command sequence the numbers added are the numbers written and the numbers still stored, as multisets |
| RadixCommands.TakeWritesSmallest | A6/handout/radix.c:165-181 | a take of N writes the N smallest numbers in ascending order, or all when there are fewer |
| RadixCommands.RunJoined | A6/handout/radix.c:156-187 | running two command sequences one after the other is running their concatenation |
| RadixCommands.RunWrites | A6/handout/radix.c:156-187 | over whole runs: adding writes nothing, and a take of N writes the N smallest, in ascending order, of all the numbers added so far and not written so far, or all of these when there are fewer |
| RadixCommands.AddedJoined | A6/handout/radix.c:163-186 | the numbers added are the commands that are not negative, in their order |
| RadixCommands.TakeBatches | A6/handout/radix.c:165-181 | batches of at most 100 have the effect of one take of N, also when the tree runs empty |
| RadixCommands.ProcessChunk | A6/handout/radix.c:163-186 | one buffer of commands does what the sorted-multiset machine does with it |
| RadixCommands.Process | A6/handout/radix.c:142-192 | the output file of the program is that of the sorted-multiset machine, for every input, and its calls of allocate and release are proper and end with nothing live |
| RadixCommands.JoinedFlat | A6/handout/radix.c:158-162 | how the input is cut into reads cannot be seen |
| RadixCommands.JoinedAt | A6/handout/radix.c:158-162 | number j of read i is behind the numbers of the reads before it |
| Allocator.BlockSizeIsRoundedUp | A6/handout/lib.c:152-160 | the block size is the least multiple of 8 with room for the request and the size word |
| Allocator.ServedExact | A6/handout/lib.c:146-164 | requests of 1 to 4084 bytes are served and no others |
| Allocator.ChunkMeans | A6/handout/lib.c:167-172 | a chunk is ten blocks, or for the smallest blocks as many as fit into 100 bytes |
| Allocator.GrowsByChunk | A6/handout/lib.c:165-176 | the heap grows only for a request whose list is empty, and then by one chunk |
| Allocator.Partition | A6/handout/lib.c:141-201 | every address between the heap's start and the free space is in exactly one block, which is live or at exactly one place of exactly one free list, the one of its size |
| Allocator.UnlinkedConsistent | A6/handout/lib.c:185-190 | taking the first block off a free list keeps every invariant |
| Allocator.RelinkedConsistent | A6/handout/lib.c:193-201 | putting a live block back keeps every invariant |
| Allocator.RelinkedUnlinked | A6/handout/lib.c:185-201 | a release followed by a request of that size gives the same block and restores the whole heap |
| Allocator.SpacedTiled | A6/handout/lib.c:177-183 | the blocks cut from a chunk cover it exactly and do not overlap |
| Allocator.SpacedLinked | A6/handout/lib.c:177-183 | the links written while cutting lead through all blocks of the chunk in ascending order and end in NULL |
| Allocator.CarvedConsistent | A6/handout/lib.c:167-184 | growing the heap by one chunk keeps every invariant |
| Allocator.AllocatedBlock | A6/handout/lib.c:146-191 | a request that can be served gets a block nobody held, with its size stored and at least the requested room; any other request changes nothing |
| Allocator.WriteConsistent | A6/handout/lib.c:152-190 | a program writing inside the blocks it holds cannot damage the heap |
| Allocator.ApplyConsistent | A6/handout/lib.c:141-201 | every allowed operation leads from a consistent heap to a consistent heap |
| Allocator.Run | A6/handout/lib.c:141-201 | every state reached by allowed operations is consistent |
| Allocator.PayloadKept | A6/handout/lib.c:146-201 | what a program stored in a block stays there through any run until it writes to one of its bytes or releases the block |
| Allocator.OverlapExact | A6/handout/lib.c:185-191 | two words overlap if and only if some byte belongs to both |
| Allocator.InPayloadExact | A6/handout/lib.c:185-191 | a program may write a word if and only if each of its bytes is in a block it holds, past the block's first word |
| Allocator.SmallBlocks.InitHeap | A6/handout/lib.c:141-144 | the heap starts empty and consistent, whatever memory and the headers hold |
| Allocator.SmallBlocks.ClearHeaders | A6/handout/lib.c:147-150 | the first use of the headers sees empty lists, later uses change nothing |
| Allocator.SmallBlocks.SplitChunk | A6/handout/lib.c:177-183 | the loop from the chunk's end downwards writes exactly the ascending list |
| Allocator.SmallBlocks.Carve | A6/handout/lib.c:167-184 | the new chunk is the heap's old free space and its blocks are the free list |
| Allocator.SmallBlocks.Allocate | A6/handout/lib.c:146-191 | the code changes memory and headers as specified, returns the room behind the size word, and NULL exactly when the request cannot be served |
| Allocator.SmallBlocks.Release | A6/handout/lib.c:193-201 | the size word found before the payload puts the block on the list it came from |
| Decimal.AccumulatedIsPlaceValue | A6/handout/lib.c:97-103 | multiplying by ten and adding from the left gives the positional value |
| Decimal.StrToUns | A6/handout/lib.c:97-103 | the result is the decimal value of the text modulo 2^32 |
| Decimal.TextMeans | A6/handout/lib.c:105-128 | the canonical text of a number has digits only, no leading zero, and that number as its value |
| Decimal.TextIsTheOnlyOne | A6/handout/lib.c:105-128 | a canonical text is the text of its value, so texts and numbers correspond one to one |
| Decimal.TextBackwards | A6/handout/lib.c:111-126 | the digits in the order in which division produces them are the canonical text backwards |
| Decimal.ReverseInPlace | A6/handout/lib.c:119-126 | swapping from both ends reverses the text and touches nothing else |
| Decimal.UnsToStr | A6/handout/lib.c:105-128 | the buffer holds the canonical text and its terminator; the result is the number of digits less one, but 1 for zero |
| Decimal.RoundTrip | A6/handout/lib.c:97-128 | reading what was written gives back any 32-bit value |
| Sha256.ChIsStandard | A4/handout/src/sha256.c:64 | the shortened Ch is that of FIPS 180-4, section 4.1.2 |
| Sha256.MajIsStandard | A4/handout/src/sha256.c:65 | the shortened Maj is that of FIPS 180-4, section 4.1.2 |
| Sha256.SigmasAreStandard | A4/handout/src/sha256.c:66-69 | the four sigma macros are the functions of FIPS 180-4, section 4.1.2 |
| Sha256.SwappedLoad | A4/handout/src/sha256.c:223-226 | loading a word and swapping its bytes reads the big-endian message word |
| Sha256.SwappedStore | A4/handout/src/sha256.c:411-414 | swapping and storing writes a hash word big-endian |
| Sha256.SwappedStore64 | A4/handout/src/sha256.c:116-121 | the swapped 64-bit length lies big-endian in memory |
| Sha256.Schedule | A4/handout/src/sha256.c:214-237 | the four walking pointers fill buf with the W of section 6.2.2 |
| Sha256.DoRound | A4/handout/src/sha256.c:71-82 | DO_ROUND is one round of section 6.2.2 on the eight working variables |
| Sha256.AllRounds | A4/handout/src/sha256.c:248-308 | every value of SHA256_UNROLL gives the sixty-four rounds |
| Sha256.Context.Init | A4/handout/src/sha256.c:181-198 | a fresh context has the initial hash of FIPS 180-4, nothing pending and length zero |
| Sha256.Context.Guts | A4/handout/src/sha256.c:211-318 | SHA256Guts is the block function of section 6.2.2 for every state and block |
| Sha256.FoldJoined | A4/handout/src/sha256.c:368-388 | folding the block function over joined input continues where the first part left off |
| Sha256.BitLengthAdds | A4/handout/src/sha256.c:377 | the 64-bit bit counts of two parts add up to that of the whole |
| Sha256.AbsorbJoined | A4/handout/src/sha256.c:320-393 | two updates have the effect of one with the joined bytes |
| Sha256.AbsorbPart | A4/handout/src/sha256.c:369-387 | taking at most the rest of a block compresses exactly when the block is full |
| Sha256.Context.Update | A4/handout/src/sha256.c:367-389 | after any update the context holds the fold over the complete blocks, the bytes after them and the bit count |
| Sha256.Context.UpdateFast | A4/handout/src/sha256.c:327-366 | the fast copy reaches the same hash, pending bytes and length as the simple loop, from every state and for every input |
| Sha256.FinalPadFillsBlock | A4/handout/src/sha256.c:402-409 | the 1 to 64 pad bytes and the 8 length bytes end exactly on a block boundary |
| Sha256.FinalPadIsPad | A4/handout/src/sha256.c:402-409 | the padding is that of FIPS 180-4, section 5.1.1, for every message |
| Sha256.Context.Output | A4/handout/src/sha256.c:411-423 | both ways of writing the result give the 32 big-endian bytes of the hash |
| Sha256.Context.Final | A4/handout/src/sha256.c:395-424 | in either build the result depends on nothing but the absorbed state |
| Sha256.FinishIsSha256 | A4/handout/src/sha256.c:395-424 | finishing after absorbing any message gives the SHA-256 of FIPS 180-4 |
| Sha256.HashAll | A4/handout/src/sha256.c:320-424 | for every list of updates, either form and any unrolling, the result is SHA-256 of the concatenated bytes |
| Sha256Standard.BigSigma0Bits | A4/handout/src/sha256.c:66 | bit j of SIGMA0 is the exclusive or of bits j + 2, j + 13 and j + 22, positions wrapping around |
| Sha256Standard.BigSigma1Bits | A4/handout/src/sha256.c:67 | the same for SIGMA1 with bits j + 6, j + 11 and j + 25 |
| Sha256Standard.SmallSigma0Bits | A4/handout/src/sha256.c:68 | the same for sigma0 with bits j + 7 and j + 18, and bit j + 3 where there is one |
| Sha256Standard.SmallSigma1Bits | A4/handout/src/sha256.c:69 | the same for sigma1 with bits j + 17 and j + 19, and bit j + 10 where there is one |
| Sha256Standard.ChoiceBits | A4/handout/src/sha256.c:64-65 | each bit of Ch is chosen by the first word between the other two, and each bit of Maj is the majority |
| Sha256Standard.PlusMeans | A4/handout/src/sha256.c:71-82 | addition is modulo 2^32 |
| Sha256Standard.MessageWordMeans | A4/handout/src/sha256.c:223-226 | the words of a block are big-endian numbers |
| Sha256Standard.BitLengthMeans | A4/handout/src/sha256.c:377 | the length counted is eight times the number of bytes, modulo 2^64 |
| Sha256Standard.PadMeans | A4/handout/src/sha256.c:402-409 | the padded message is whole blocks: the message, the byte 0x80, as few zeros as will do, and eight bytes that spell the length in bits |
| Sha256Standard.ConstantsMean | A4/handout/src/sha256.c:84-101 | each round constant is made of the first 32 bits after the point of the cube root of its prime, of the first sixty-four |
| Sha256Standard.InitialMeans | A4/handout/src/sha256.c:189-196 | the initial hash is made of those of the square roots of the first eight primes |
| Sha256Example.DigestOfAbc | A4/handout/src/sha256.c:33-35 | the digest of "abc" is the one the source lists, worked out through all rounds |
| PeerNetwork.ExpiredKeepsTimestamps | A4/handout/python/first_peer/peer.py:119-142 | expiry never brings an entry up to date |
| PeerNetwork.ExpiryExact | A4/handout/python/first_peer/peer.py:119-142 | the region does what its comments say if and only if the sender is not a known other peer, or there was nothing to remove or update |
| PeerNetwork.ExpiredExact | A4/handout/python/first_peer/peer.py:119-142 | an entry is still there after a message if and only if the sender is another known peer, or the entry is the peer's own, or it is at most sixty seconds old |
| PeerNetwork.RecentPeerDropped | A4/handout/python/first_peer/peer.py:129-134 | a concrete peer that spoke ten seconds ago is dropped when another one speaks |
| PeerNetwork.RemovalsAreFilter | A4/handout/python/first_peer/peer.py:121-137 | collecting stale entries and removing each by value leaves exactly the others, in order |
| PeerNetwork.AddedGood | A4/handout/python/first_peer/peer.py:294-302 | adding keeps the list free of duplicates and makes exactly one address known |
| PeerNetwork.MergedGood | A4/handout/python/first_peer/peer.py:596-612 | merging a reply keeps the list good and makes exactly the listed addresses known |
| PeerNetwork.ExpiredGood | A4/handout/python/first_peer/peer.py:119-142 | expiry keeps the own entry and adds no duplicate, also when the update raises |
| PeerNetwork.RunGood | A4/handout/python/first_peer/peer.py:119-308 | under any interleaving of the regions no address is listed twice and the own entry stays |
| PeerNetwork.AddedEntries | A4/handout/python/first_peer/peer.py:294-302 | adding an unknown address appends it with the current time and changes nothing else |
| PeerNetwork.RecentLasts | A4/handout/python/first_peer/peer.py:119-308 | through any run in which every message comes within sixty seconds of its timestamp an entry lasts |
| PeerNetwork.KnownForAMinute | A4/handout/python/first_peer/peer.py:119-308 | a peer that becomes known at time t stays known while messages come by t + 60, and is dropped with the first later message from someone unknown |
| PeerNetwork.Peer.constructor | A4/handout/python/first_peer/peer.py:836 | a peer starts knowing itself only |
| PeerNetwork.Peer.UpdateTimestamps | A4/handout/python/first_peer/peer.py:119-142 | the region has the effect of Expired, with the exception and its swallowing |
| PeerNetwork.Peer.RegisterPeer | A4/handout/python/first_peer/peer.py:192-233 | a newcomer is refused, rejected or added; the payload names the whole list with the newcomer, and the reused loop variables end up naming the newcomer |
| PeerNetwork.Peer.InformOthers | A4/handout/python/first_peer/peer.py:240-271 | everyone on the list but the sender and the newcomer gets one note with the name left by the first region, in order; it stops early exactly at a name it cannot split |
| PeerNetwork.Peer.AddToNetwork | A4/handout/python/first_peer/peer.py:290-308 | an informed address is appended unless known |
| PeerNetwork.Peer.MergeReply | A4/handout/python/first_peer/peer.py:596-619 | the loop over a reply merges its addresses in order |
| Utf8.DecodeEncode | A4/handout/python/first_peer/peer.py:643-681 | decoding gives back every encoded text |
| Utf8.EncodeDecode | A4/handout/python/first_peer/peer.py:643-681 | bytes that decode are the encoding of what they decode to, so no other bytes are accepted |
| Utf8.EncodedLength | A4/handout/python/first_peer/peer.py:643 | a text has at least one byte for each character, and exactly one if and only if it is ASCII |
| Utf8.Examples | A4/handout/python/first_peer/peer.py:643 | characters of one to four bytes are those of section 7 of RFC 3629 |
| Wire.UnpackPack | A4/handout/python/first_peer/peer.py:644-646 | unpacking gives back every 32-bit number that was packed |
| Wire.PackUnpack | A4/handout/python/first_peer/peer.py:664-675 | packing gives back every four bytes that were unpacked |
| Wire.FieldExact | A4/handout/python/first_peer/peer.py:643-681 | of any text the very name is read out of its padded field if and only if its UTF-8 bytes fit the field and neither end is NUL |
| Wire.FittingExact | A4/handout/python/first_peer/peer.py:643 | the names of at most 16 ASCII characters with no NUL at either end are those that arrive and push nothing back |
| Wire.MessageArrives | A4/handout/python/first_peer/peer.py:631-683 | for every name, port, code and body: name, port and code are read as they were sent if and only if the name fits its field and is ASCII, or it fits and port and code are zero |
| Wire.MessageRoundTrip | A4/handout/python/first_peer/peer.py:631-683 | with an ASCII name everything but the name always arrives in one recv; the length check fails if and only if the message was too long for it |
| Wire.PeersRoundTrip | A4/handout/python/first_peer/peer.py:596-612 | of any list of addresses the reading loop makes the very list if and only if every name fits its field and is ASCII |
| Wire.PeerExact | A4/handout/python/first_peer/peer.py:249-290 | one address is read as it was sent if and only if its name fits the field and is ASCII or its port is zero |
| Wire.PortPushedBack | A4/handout/python/first_peer/peer.py:256-258 | a concrete name of one two-byte character fits its field, but its address is not read as it was sent |
| WireLayout.RequestLayout | A4/handout/python/first_peer/peer.py:642-649 | where name, port, command, length and body lie in a request, numbers with the most significant byte first |
| WireLayout.PeerLayout | A4/handout/python/first_peer/peer.py:224-229 | a peer on a list is sixteen bytes of name and four of port |
| WireLayout.ReplyLayout | A4/handout/python/first_peer/peer.py:700-717 | where length, status, block number, count, both hashes and payload lie in a reply |
| WireLayout.BlocksFillMessages | A4/handout/python/first_peer/peer.py:402-422 | every block but the last fills a message of 8196 bytes, and the last is empty only when there are no data |
| Membership.InitialInvariant | A4/handout/python/first_peer/peer.py:836 | the invariant holds when only the bootstrap peer runs |
| Membership.PlainExact | A4/handout/python/first_peer/peer.py:643-681 | the addresses peers start with are exactly those with a port that arrive as they were sent and can be split at their colon |
| Membership.InTimeExact | A4/handout/python/first_peer/peer.py:133 | nobody is silent too long if and only if no other entry is more than sixty seconds old |
| Membership.NamesSplit | A4/handout/python/first_peer/peer.py:240-269 | in a reachable state informing the others meets no address it cannot split |
| Membership.HandlerNeverFails | A4/handout/python/first_peer/peer.py:192-233 | in a reachable state the handler of a registration meets no empty name and no address it cannot split |
| Membership.HandleRegisterKeeps | A4/handout/python/first_peer/peer.py:207-230 | registering or refusing a peer keeps the invariant: the handler holds a list that names everyone, and itself stands for the notes still to be sent |
| Membership.SendReplyKeeps | A4/handout/python/first_peer/peer.py:235-236 | sending the reply before the others are informed forgets nobody |
| Membership.InformOthersKeeps | A4/handout/python/first_peer/peer.py:240-266 | informing everyone but the sender and the newcomer, from the list as it then is, forgets nobody |
| Membership.ReadReplyKeeps | A4/handout/python/first_peer/peer.py:595-615 | a newcomer that merges its reply knows all that the reply could bring |
| Membership.ReadInformKeeps | A4/handout/python/first_peer/peer.py:281-302 | an informed peer knows the newcomer, and other peers' knowledge is unchanged |
| Membership.RegistrationsReadable | A4/handout/python/first_peer/peer.py:574-583 | in a reachable state the bytes of a registration are read as the address of the peer that registers, code 1 and an empty body |
| Membership.RepliesReadable | A4/handout/python/first_peer/peer.py:224-229 | in a reachable state the bytes of a reply decode to the very list the handler held |
| Membership.NotesReadable | A4/handout/python/first_peer/peer.py:251-290 | in a reachable state the bytes of a note are read as the bootstrap peer's address and code 3, and its body as the very address of the newcomer |
| Membership.StepKeeps | A4/handout/python/first_peer/peer.py:180-308 | every step of every peer keeps the invariant |
| Membership.ReachedInvariant | A4/handout/python/first_peer/peer.py:180-308 | the invariant holds after any number of steps in any order |
| Membership.QuietAgreement | A4/handout/python/first_peer/peer.py:180-308 | in every interleaving, whenever no reply or note is under way, every registered peer knows exactly the peers the bootstrap peer knows, without duplicates |
| Quiescence.HandlingShrinks | A4/handout/python/first_peer/peer.py:180-308 | handling a message or finishing a handler uses it up and starts only later kinds of work, so the counts of the four kinds shrink lexicographically |
| Quiescence.EveryRunEnds | A4/handout/python/first_peer/peer.py:180-308 | there is no endless run without new registrations, in whatever order its steps come |
| Quiescence.TokenMoves | A4/handout/python/first_peer/peer.py:180-308 | in a reachable state everything under way has a step that handles it |
| Quiescence.BecomesQuiet | A4/handout/python/first_peer/peer.py:180-308 | from every reached state, with nobody silent too long, handling leads to one in which nothing is under way and everyone who was registering is registered |
| Quiescence.BecomesAgreed | A4/handout/python/first_peer/peer.py:180-308 | there all registered peers know exactly each other |
| Quiescence.AnyoneJoins | A4/handout/python/first_peer/peer.py:180-308 | from every reached state with nobody silent too long a new peer can start and register, after which everyone knows it, it knows everyone, and all agree |
| BlockTransfer.ReplyRoundTrip | A4/handout/python/first_peer/peer.py:686-752 | reading the length and then as much as it announces yields every part of an assembled reply and leaves what follows |
| BlockTransfer.BlocksAreData | A4/handout/python/first_peer/peer.py:402-422 | the blocks are numbered from zero, fit one message each, are as many as announced and joined give back the data, also when it is empty |
| BlockTransfer.CutBlocks | A4/handout/python/first_peer/peer.py:402-422 | the loop produces these blocks and announces their number |
| BlockTransfer.SendBlocks | A4/handout/python/first_peer/peer.py:427-440 | all replies go out in the shuffled order, or none when a number does not fit |
| BlockTransfer.Respond | A4/handout/python/first_peer/peer.py:387-440 | for every shuffle the wire carries the replies for exactly the blocks of the data |
| BlockTransfer.Connection.Recv | A4/handout/python/first_peer/peer.py:492-498 | a full read takes the front of the stream and leaves the rest |
| BlockTransfer.SendToServer | A4/handout/python/first_peer/peer.py:450-548 | the receive loop has the specified outcome on any stream and leaves unread what the specification leaves |
| BlockTransfer.LastFills | A4/handout/python/first_peer/peer.py:505-537 | the loop stops with the reply that fills the last empty slot, not before |
| BlockTransfer.OrderFacts | A4/handout/python/first_peer/peer.py:424-425 | a shuffle neither loses nor repeats a block |
| BlockTransfer.FilledWithData | A4/handout/python/first_peer/peer.py:528-544 | blocks put into slots by number, in any order, joined are the data |
| BlockTransfer.TransferWhole | A4/handout/python/first_peer/peer.py:387-548 | for every byte string and every order of its blocks the receiver returns the bytes, having read exactly the replies |
| BlockTransfer.RefusalReported | A4/handout/python/first_peer/peer.py:509-541 | an error reply ends the loop after its first block with the status reported |
| BlockOutcomes.ChecksumReported | A4/handout/python/first_peer/peer.py:519-526 | after any intact replies that leave a block missing, a reply whose payload does not match its checksum ends the transfer with that reported, and what follows is not read |
| BlockOutcomes.StatusReported | A4/handout/python/first_peer/peer.py:509-517 | the same for a reply with an error status |
| BlockOutcomes.UnknownBlockRaises | A4/handout/python/first_peer/peer.py:528 | a block number that was not announced raises, whatever else the reply holds |
| BlockOutcomes.LastReplyCompletes | A4/handout/python/first_peer/peer.py:528-548 | the intact reply with the last missing block ends the transfer, and the data are the payloads that came last for each block, in order |
| BlockOutcomes.ReturnedMeans | A4/handout/python/first_peer/peer.py:492-548 | whatever the bytes, if data are returned, every payload read matches its checksum, every announced block came, and the data are the payloads that came last for each block, in order |
| AssemblyTable.EntriesStore | A5/src/assembly.c:100-104 | storing in a free slot, or over the same address, updates the map and keeps addresses unique |
| AssemblyTable.EntriesAt | A5/src/assembly.c:107-113 | a valid slot holds what the map holds for its address |
| AssemblyTable.LastSetWins | A5/src/assembly.c:87-105 | after any history the map holds the text set last for an address |
| AssemblyTable.Assembly.Create | A5/src/assembly.c:115-123 | a new table is valid and holds nothing |
| AssemblyTable.Assembly.FindEntry | A5/src/assembly.c:23-36 | four probes find an address if and only if it is in the table |
| AssemblyTable.Assembly.FindEmpty | A5/src/assembly.c:38-51 | the first free slot of the window is found, and none only when the window is full |
| AssemblyTable.Assembly.HomeIsFree | A5/src/assembly.c:38-51 | in a table larger than every address each address has its home slot to itself |
| AssemblyTable.Assembly.Rehash | A5/src/assembly.c:60-81 | one attempt either fails or holds the same map; it does not fail once the table is larger than every address |
| AssemblyTable.Assembly.GrowAndRehash | A5/src/assembly.c:53-85 | the retry loop ends, the table is strictly larger and the map is preserved |
| AssemblyTable.Assembly.Set | A5/src/assembly.c:87-105 | the growth loop ends and the map is updated at the address and nowhere else |
| AssemblyTable.Assembly.Get | A5/src/assembly.c:107-113 | the result is the text the map holds, or the empty text |
| AssemblyTable.Replay | A5/src/assembly.c:87-123 | after any history of sets the table answers with the last text for the address, or the empty text |
| PagedMemory.AddressParts | A5/src/memory.c:27-43 | page number and index find the word that holds the addressed byte, for every address, so distinct addresses never alias |
| PagedMemory.StoreHalf | A5/src/memory.c:55-58 | the masked halfword writes replace two bytes of the word and keep the other two |
| PagedMemory.StoreByte | A5/src/memory.c:65-79 | at each of the four offsets the masked byte write replaces one byte of the word and keeps the other three |
| PagedMemory.LoadHalf | A5/src/memory.c:102-105 | both halves are read zero-extended although the shift is of a signed int |
| PagedMemory.LoadByte | A5/src/memory.c:112-126 | each byte is read zero-extended although the shifts are of a signed int |
| PagedMemory.Memory.Create | A5/src/memory.c:10-13 | memory starts as 2^32 zero bytes |
| PagedMemory.Memory.GetPage | A5/src/memory.c:25-33 | creating a page on first touch changes no byte |
| PagedMemory.Memory.OtherWord | A5/src/memory.c:43 | changing one aligned word leaves every other word alone |
| PagedMemory.Memory.WrW | A5/src/memory.c:35-44 | an aligned word write replaces exactly four bytes, little-endian; an unaligned one ends the program |
| PagedMemory.Memory.WrH | A5/src/memory.c:46-59 | an aligned halfword write replaces exactly two bytes, little-endian; an unaligned one ends the program |
| PagedMemory.Memory.WrB | A5/src/memory.c:61-80 | a byte write replaces exactly one byte |
| PagedMemory.Memory.RdW | A5/src/memory.c:82-91 | an aligned word read is the little-endian composition of four bytes and changes no byte |
| PagedMemory.Memory.RdH | A5/src/memory.c:93-106 | an aligned halfword read is the zero-extended composition of two bytes and changes no byte |
| PagedMemory.Memory.RdB | A5/src/memory.c:108-128 | a byte read is the zero-extended byte and changes no byte |
| WordValues.WordValue | A5/src/memory.c:84-93 | a word is the little-endian number its four bytes spell |
| WordValues.Order | A5/src/simulate.c:318-335 | comparing words compares the unsigned numbers they spell |
| WordValues.SignedOrder | A5/src/simulate.c:303-317 | comparing words with flipped signs compares the signed numbers they stand for |
| WordValues.SumValue | A5/src/simulate.c:209-220 | addition of words is addition modulo 2^32 |
| WordValues.DifferenceValue | A5/src/simulate.c:209-220 | subtraction of words is subtraction modulo 2^32 |
| Rv32Meaning.AluMeans | A5/src/simulate.c:209-275 | ADD and SUB wrap around as signed numbers, SLT compares signed and SLTU unsigned numbers |
| Rv32Meaning.BitsMean | A5/src/simulate.c:209-275 | XOR, OR and AND work on each bit by itself |
| Rv32Meaning.ShiftMeans | A5/src/simulate.c:209-275 | SLL multiplies by a power of two modulo 2^32, SRL divides the unsigned and SRA the signed number by it, rounding down |
| Rv32Meaning.BranchesMean | A5/src/simulate.c:279-339 | the six branches compare for equality, as SLT and as SLTU do |
| Rv32Meaning.ImmediatesMean | A5/src/decode_helpers.c:69-112 | immediates are two's complement numbers of their length, and an upper immediate is shifted by twelve |
| Rv32Meaning.LoadMeans | A5/src/simulate.c:356-388 | a load reads a little-endian number of one, two or four bytes, signed or unsigned |
| Rv32Meaning.StoreMeans | A5/src/simulate.c:467-502 | a store writes the low bytes of its number, the least significant first, and no other byte |
| Rv32Meaning.PartsMean | A5/src/simulate.c:67-71 | a shift amount is a register modulo 32, and a jump goes to the even number at or below its sum |
| Rv32Meaning.RegistersMean | A5/src/simulate.c:31-98 | an instruction writes its result to its own register and no other, and x0 stays zero |
| Rv32Meaning.PcMeans | A5/src/simulate.c:31-98 | execution goes on four bytes further, or at the signed offset of a jump or a branch that is taken, modulo 2^32 |
| Rv32Meaning.AddressMeans | A5/src/simulate.c:342-355 | an address is the register plus the signed immediate, modulo 2^32 |
| Rv32Meaning.LinksMean | A5/src/simulate.c:52-71 | a jump leaves the address behind it, LUI its immediate, and AUIPC the sum of its immediate and its address |
| Rv32Meaning.FetchesMeans | A5/src/simulate.c:33-34 | the instruction fetched is the one whose word lies at an aligned pc, little-endian |
| Rv32Meaning.LegalMeans | A5/src/decode_helpers.c:84-112 | an instruction is legal if and only if its offset is even and it does not subtract an immediate |
| Rv32Meaning.ListedJumps | A5/src/test_files/echo.dis:85-120 | words of jumps are those of the listings |
| Rv32Meaning.ListedBranches | A5/src/test_files/echo.dis:212 | words of branches, backwards too, are those of the listings |
| Rv32Meaning.ListedMemory | A5/src/test_files/echo.dis:324 | words of loads and stores are those of the listings |
| Rv32Meaning.ListedSums | A5/src/test_files/instruction_tests/sub.dis:20 | words of sums and comparisons are those of the listings |
| Rv32Meaning.ListedBits | A5/src/test_files/instruction_tests/xor.dis:20 | words of operations on bits are those of the listings |
| Rv32Meaning.ListedShifts | A5/src/test_files/instruction_tests/srai.dis:18 | words of shifts are those of the listings |
| Decode.FieldsR | A5/src/decode_helpers.c:10-62 | the extractors give back the fields of the R format, the first source register if and only if it is below 16 |
| Decode.FieldsI | A5/src/decode_helpers.c:10-74 | the same for the I format with its sign-extended immediate |
| Decode.FieldsS | A5/src/decode_helpers.c:10-48 | the same for the S format |
| Decode.FieldsB | A5/src/decode_helpers.c:10-48 | the same for the B format |
| Decode.ImmediateS | A5/src/decode_helpers.c:76-82 | get_imm_S inverts the encoding of every immediate |
| Decode.ImmediateB | A5/src/decode_helpers.c:84-92 | get_imm_B gives back an offset if and only if it is even, the only ones the format can carry |
| Decode.ImmediateU | A5/src/decode_helpers.c:94-101 | get_imm_U inverts the encoding of every upper immediate |
| Decode.ImmediateJ | A5/src/decode_helpers.c:103-111 | get_imm_J gives back an offset if and only if it is even |
| Decode.DecodeEncoded | A5/src/decode_helpers.c:10-111 | every legal instruction decodes to its own fields, its first source register if and only if that is below 16 |
| Departures.SrliExact | A5/src/simulate.c:453-456 | shifting the signed int is SRLI if and only if the shift is by zero or the register is not negative |
| Departures.JumpExact | A5/src/simulate.c:67-71 | the jump lands where JALR should if and only if it starts from the register's value, or from one less when the sum is odd |
| Departures.EvenTarget | A5/src/simulate.c:70 | a sum is its own JALR target if and only if it is even |
| Departures.JumpThroughX0 | A5/src/simulate.c:46-48 | a jump through x0 is right if and only if the slot of x0 holds zero, or all ones for an odd immediate |
| Departures.LowFourSame | A5/src/decode_helpers.c:34-40 | the mask leaves a register number alone if and only if it is below 16 |
| Departures.SourceSeen | A5/src/decode_helpers.c:34-40 | with a destination other than x0, ADD, SUB and XOR of a register above x15 are right if and only if the register sixteen below holds the same |
| Departures.WrongRegister | A5/src/decode_helpers.c:34-40 | mv x2, x17 copies x1 |
| Departures.WrongShift | A5/src/simulate.c:453-456 | srli x1, x1, 1 of a negative number sets the highest bit |
| Departures.AluExact | A5/src/simulate.c:209-275 | another first operand goes unseen if and only if it is the same for sums, differences and exclusive ors, differs only in bits that OR sets or AND clears, or compares the same |
| Departures.ShiftExact | A5/src/simulate.c:453-456 | the code's shift of another value is the ISA's if and only if all bits in which they differ are shifted out and, for a logical shift to the right, the value is not negative or is not shifted |
| Departures.LoadExact | A5/src/simulate.c:356-388 | loads from two addresses agree if and only if all bytes there agree |
| Departures.StoreExact | A5/src/simulate.c:467-502 | storing at another address makes no difference if and only if both places already hold the bytes |
| Departures.CodedExact | A5/src/simulate.c:31-98 | for every instruction, state and slot of x0, the code does what the ISA says if and only if the state supports it |
| Departures.OrdinarySupported | A5/src/simulate.c:31-98 | every legal and aligned instruction with a first source register below 16 is done right from every state, save logical shifts to the right of negative numbers and JALR through x0 or to an odd address |
| Departures.BelowSixteenSupported | A5/src/decode_helpers.c:34-40 | every legal and aligned instruction but SRL and JALR is done right from every state if its first source register is below 16 |
| Departures.InRangeExact | A5/src/simulate.c:222-250 | the shifts that C defines are those by 0 to 31 |
| Simulator.StaleX0 | A5/src/simulate.c:46-71 | after addi x0, x0, 4 the code of jalr x1, 0(x0) goes to 4, the ISA to 0 |
| Simulator.NarrowLoads | A5/src/simulate.c:357-387 | the narrow C variables extend loaded bytes and halfwords as the ISA says |
| Simulator.Simulation.constructor | A5/src/simulate.c:13-15 | the program counter is set, and eight registers are zero |
| Simulator.Simulation.TypeB | A5/src/simulate.c:279-339 | the six branches are taken under the conditions of the ISA |
| Simulator.Simulation.ResultR | A5/src/simulate.c:209-275 | each arithmetic and logical operation has its ISA result, and each shift by a register that C defines, with right shifts arithmetic |
| Simulator.Simulation.TypeR | A5/src/simulate.c:202-276 | the result goes to the destination register, or the slot of x0, and nothing else changes but the program counter |
| Simulator.Simulation.ResultI2 | A5/src/simulate.c:400-463 | each immediate operation has its ISA result, with both right shifts arithmetic |
| Simulator.Simulation.TypeI2 | A5/src/simulate.c:392-464 | the result goes to the destination register, or the slot of x0, and nothing else changes but the program counter |
| Simulator.Simulation.Load | A5/src/simulate.c:356-388 | each load gives the ISA value of the addressed bytes, and exits exactly when unaligned |
| Simulator.Simulation.TypeI | A5/src/simulate.c:342-389 | a load writes only its destination register |
| Simulator.Simulation.TypeS | A5/src/simulate.c:467-502 | a store writes exactly the addressed bytes |
| Simulator.Simulation.Upper | A5/src/simulate.c:52-66 | LUI, AUIPC and JAL write the immediate, or the address it or 4 leads to, and jump where they should |
| Simulator.Simulation.JumpRegister | A5/src/simulate.c:67-71 | for every word the return address is written and the jump starts from the value read before x0 was cleared |
| Simulator.Simulation.Step | A5/src/simulate.c:31-98 | one pass of the loop on any legal instruction does what Departures.Coded says, leaves in the slot of x0 what was written to it, and ends the program if and only if the address computed is not aligned |
| Simulator.Simulate | A5/src/simulate.c:31-132 | as long as each executed instruction is supported where it comes, the loop and RV32I agree step for step on x1 to x31, PC and memory, JALR through x0 included |
| Simulator.OrdinaryTraces | A5/src/simulate.c:31-132 | a run of RV32I whose instructions are all ordinary is one the loop follows step for step, whatever the slot of x0 holds |
| Simulator.RunsJoined | A5/src/simulate.c:31-132 | runs of RV32I one after the other are one run |
| Simulator.OneInstruction | A5/src/simulate.c:31-98 | no instructions change nothing, and a run of one instruction is that instruction where it is fetched |

## Left out

- RadixTree.Tree.AddNumber: leaf counts are unbounded, so the overflow of a count past 2^31 is not modelled.
- RadixCommands.Process: writes are full, so the loop that repeats a short write runs once; a take of 2^31 numbers, whose negation overflows, is outside.
- RadixCommands.Process: a failed open of the files is left out with the other file handling.
- Allocator.SmallBlocks.Allocate: heap addresses are unbounded, and a request whose size overflows an int is outside.
- Decimal.RoundTrip: the other text helpers of `A6/handout/lib.c` are system calls and console I/O.
- Sha256.HashAll: big-endian and run-time-endian builds, `burnStack` and inline assembly are left out.
- RadixAllocation.FieldsKept: it speaks of every order of calls and writes of fields, but the tree's methods list only their calls; they keep the fields in the node.
- Sha256.Context.UpdateFast: the input is a sequence of bytes, so the alignment of the pointer given to the block function is not modelled.
- PeerNetwork.Peer.RegisterPeer: sockets, threads and the mutex are left out; each region under the mutex is one atomic step.
- Wire.MessageArrives: lone surrogates, which Python strings may hold and cannot encode, are no characters of the model.
- Membership.QuietAgreement: lost connections and expiring entries are outside.
- BlockTransfer.TransferWhole: short reads by recv are outside.
- BlockTransfer.SendToServer: the text that reports a problem is a value naming the problem.
- AssemblyTable.Replay: negative addresses, for which the remainder is negative in C, and the overflow of the table size are outside; `assembly_delete` only frees.
- Simulator.Simulation.Step: multiplication and division, `ecall`, and shifts by a register of 32 or more or a negative amount, which C leaves undefined, are not modelled.
- Simulator.Simulate: instruction counting, logging and the return at termination are left out.
- The C peer (`A4/handout/src/peer.c`), whose handling of an inform message overwrites the last entry, is not modelled; the Python peer is.
- The A3 client and server, the copies of the tree and of the hash, and the programs that read executables are left out; they are wrappers or duplicates.
- Serving files, the checks on their paths and the command-line client of `A4/handout/python/first_peer/peer.py` are file and console handling.
