# A model of the daolicloud blockchain node

This project models the hard parts of the daolicloud blockchain prototype, a Go program in the
middle of a refactoring, and proves what they keep and promise:

- **The node protocol** (`BlockDb`, `Chain`, `Membership`, `Serving`, `Flood`, `BlockFlood`,
  `AddressFlood`, `RefererFlood`, `RefererWalks`, `Leadership`, `Node`, `NodeFloods`): each node's block store
  with its height index and latest pointer, proposals and the linked chain they build, the committee walk,
  queries by height and block download, and flooding of head blocks, gateway addresses and
  referer blocks over any finite peer graph, with messages delivered in any order. `Node` holds
  the message handlers as they are, on mutable stores and a shared network; its methods are
  proved against the functions the models use, its network-wide methods and those
  of `NodeFloods` are steps of the flooding and proposing models, and `Node.Drain` runs whole networks to quiescence.
- **Compact targets** (`Shift`, `Difficulty`): the "nBits" encoding of the Bitcoin block header,
  over unbounded integers of both signs.
- **Mining** (`Mining`, `MinerLifecycle`): the nonce search through an aliased header and digest
  buffer, and every interleaving of starts, stops, workers and generators.
- **Wire encoding** (`Bytes`, `HashBytes`, `Wire`, `FreeListRuns`): headers written and read
  through recycled 8-byte buffers, and buffer ownership under every interleaving.
- **The private clock** (`Clock`) and **the signature buffer** (`Signing`, `SigningRuns`).

One file holds one module. SHA-256 is a parameter: any total function from byte strings to 32
bytes. The time, quit signals, hash errors, map iteration orders and message orders are
parameters too, so every statement holds for all of them.

## Where the program and its intent differ

The model follows the program's text wherever that text has a meaning, and states how the two
differ:

- `HashToBig` copies only the slice header and so reverses its caller's bytes; `Mining.TryNonce`
  therefore stores the reversed digest. Both are modelled on heap arrays.
- `i <= maxNonce` on a 32-bit counter always holds; the counter wraps and the last `return false`
  is never reached.
- `Push` and `Clock` take a lock they already hold; `lockLen` is read as a plain length.
- The clock divides the span of k values by k, not by the k - 1 gaps (`Clock.ExactGapReportedIff`).
- `getLatestPublicKeyMap` declares a new variable inside its loop, so its walk never moves. Both
  the text and the walk that moves are modelled, and compared.
- The fallback of `GetBlockByIndex` fetches the same block for ever (answer `Looping`); the walk
  along previous hashes it was meant to be is `Chain.WalkBack`.
- `Block.Copy` puts as many nil entries before the copied signatures as there are signatures, so
  it is faithful exactly when there are none, and a copy of a signed block cannot be copied again.
  Head blocks copy their ordered blocks this way, and the store copies on every read: whatever
  copies a head block with signed candidates once more crashes (proposals, the key map,
  download replies).
- The download response handler shadows its loop variable, so it stores the node's own blocks
  again instead of those received, and it uses the greatest height as a position in the reply.
- `blockBuffer.Set` signs with the block's own hash as key, and `HalfMore` asks for more than the
  full member count.
- `copy` into `PrevBlock` links a proposal only when that field already has the hash's length.
- A leader reads its latest block, waits, and builds on what it read before the wait.
- `NewDeForkBlock` never sets a hash, so all referer blocks that leaders make compare equal.
  `RefererFlood` follows this; `RefererWalks` is about referer blocks from other software.
- The referer handler refreshes the delay estimate first, which reads a nil block on a node
  without a chain.
- `startTimer` goes on only for committee members, `startNewLeaderHelloBlock` runs only for a node
  that leads its latest block and again asks that it leads the referer block: leadership never
  changes hands, the committee stays one author, and proxies, which leave out the node a buffer
  came from, have no one to send it on to.
- An int64 is narrowed to uint32 before it is written on eight bytes.
- `BlockHash` converts 76 bytes to a 32-byte array. Go versions that accept this for 32 bytes and
  more keep the first 32; that reading is modelled.
- `BlockHeader` is declared twice: mining uses the one with a nonce, the wire form the other.
  `NewLeaderHelloBlock`, `Collection`, `GetGenesisBlock` and `readElements` are not in the
  repository; they are rebuilt from how they are used.

## Model

| member | source | states |
|---|---|---|
| Difficulty.EncodesNormalForm | blockchain/difficulty.go:76-112 | every positive number is encoded as its normal form: mantissa in [0x8000, 0x7fffff], the number within one mantissa unit, whichever of the byte-length and sign-carry branches is taken |
| Difficulty.NormalUnique | blockchain/difficulty.go:26-43 | a number has exactly one normal form |
| Difficulty.NormalDecodes | blockchain/difficulty.go:44-70 | a normal form decodes to the number itself up to exponent 3, and above to the number with its low exponent - 3 bytes cleared |
| Difficulty.ExponentFits | blockchain/difficulty.go:104-107 | the exponent fits its eight bits exactly below 2^2039 |
| Difficulty.DecodesPacked | blockchain/difficulty.go:44-112 | below 2^2039 the packed fields come apart again, undisturbed by the sign bit |
| Difficulty.DecodesTo | blockchain/difficulty.go:44-70 | for all 2^32 words with low bits m and exponent byte e: the magnitude is m * 256^(e-3) from e = 3 on and m / 256^(3-e), rounded down, below; negative exactly when the sign bit is set and that is not zero |
| Difficulty.BestApproximation | blockchain/difficulty.go:44-112 | for 0 <= n < 2^2039, decode(encode(n)) is the greatest value of any 32-bit word that is not above n |
| Difficulty.LossBound | blockchain/difficulty.go:44-112 | the packed mantissa lies in [0x8000, 0x7fffff]; nothing is lost up to exponent 3, and less than 256^(e-3) above |
| Difficulty.RelativeLossIff | blockchain/difficulty.go:72-112 | the loss is below n / 2^15 exactly when n < 2^2039, beyond which the exponent wraps |
| Difficulty.OrderEmbedding | blockchain/difficulty.go:86-107 | larger targets get larger words, and words are equal exactly when the decoded targets are |
| Difficulty.ReencodePositive | blockchain/difficulty.go:44-112 | encoding a decoded target again gives the same word |
| Difficulty.ExactIff | blockchain/difficulty.go:44-112 | any integer, negative ones included, survives the encoding exactly when its magnitude is below 2^2039 and has no bits below the three bytes kept |
| Difficulty.MirrorExact | blockchain/difficulty.go:107-111 | encoding the negative of a number that loses nothing sets the sign bit and nothing else |
| Difficulty.DecodeEncodeDecode | blockchain/difficulty.go:44-112 | decode, encode, decode is decode, for all 2^32 words |
| Difficulty.CanonicalIff | blockchain/difficulty.go:44-112 | encode(decode(c)) = c exactly for zero and for normalised mantissas with no bits lost below exponent 3 |
| Difficulty.SmallNumbersExact | blockchain/difficulty.go:72-75 | all integers below 2^23 in magnitude are encoded exactly |
| Difficulty.RoundedUpTight | blockchain/difficulty.go:92-94 | the arithmetic shift rounds the magnitude of a negative number up, by less than the lowest byte kept |
| Difficulty.RoundingOverflowsIff | blockchain/difficulty.go:92-103 | rounding overflows 24 bits exactly for magnitudes of e > 3 bytes above 256^e - 256^(e-3) |
| Difficulty.OverflowDecodesToZero | blockchain/difficulty.go:100-111 | those numbers decode to zero |
| Difficulty.NegativeIsRoundedUp | blockchain/difficulty.go:76-112 | every other negative number is encoded as its rounded magnitude with the sign bit set |
| Difficulty.NegativeRoundingOverflows | blockchain/difficulty.go:92-107 | -0xffffff01 is such a number: it is encoded as 0x05800000 |
| HashBytes.HashToBig | blockchain/difficulty.go:9-19 | returns the little-endian value of the bytes, of any length, and leaves the caller's array reversed |
| HashBytes.HashToBigTwice | blockchain/difficulty.go:9-19 | a second call restores the bytes and reads the other numeral |
| HashBytes.ReadingsAgreeIff | blockchain/difficulty.go:9-19 | the two calls agree exactly on palindromes |
| HashBytes.HashString | blockchain/chain.go:25-30 | prints 64 hexadecimal digits that denote the number HashToBig reads, and leaves the caller's array alone |
| HashBytes.HexValueOfEncode | blockchain/chain.go:29 | the printed numeral denotes the big-endian value of the bytes printed |
| Clock.PrivateClock.Push | service/clock.go:29-38 | what one push drops and adds for any length and size, and when it fails on an empty list |
| Clock.PrivateClock.Clock | service/clock.go:40-47 | back minus front modulo 2^64 over the length, zero when empty |
| Clock.WindowIsSuffix | service/clock.go:29-38 | with Size >= 1 the list is exactly the last min(pushes, Size) values in order, after any pushes |
| Clock.FailsIff | service/clock.go:32-36 | some push dereferences nil exactly when Size is not positive and anything is pushed |
| Clock.StepOfWindow | service/clock.go:40-47 | on every window: newest minus oldest over the length, with 2^64 added when the newest is the smaller, and zero on an empty one |
| Clock.StepBounds | service/clock.go:40-47 | for values that grow by at least a and at most b each time the subtraction never wraps, the step is newest minus oldest over k, and lies between a(k-1)/k and b(k-1)/k for a window of k |
| Clock.ExactGapReportedIff | service/clock.go:46 | for values exactly g apart the clock reports g only when g is 0 |
| Signing.Block.Copy | blockchain/block.go:245-259 | the nil entries and the signatures after them, or a crash exactly when an entry is nil |
| Signing.Block.Sign | blockchain/block.go:261-272 | appends the key exactly when no entry has it, and crashes exactly when a nil entry comes first |
| Signing.SearchEnds | blockchain/block.go:261-272 | the search ends at the first entry that is nil, a crash, or has the key, a find; it misses exactly when there is none |
| Signing.SignKeepsDistinct | blockchain/block.go:261-272 | signing keeps signers distinct, removes none, adds exactly the key, and is idempotent |
| Signing.CountIsKeys | service/struct.go:302 | with distinct signers the entries counted are exactly the distinct keys |
| Signing.CopyFaithfulIff | blockchain/block.go:245-259 | a copy has one nil entry for each entry of its block and then those entries, so it equals its block, and can be signed, exactly when the block has no signatures |
| Signing.CopiedAgainIff | blockchain/block.go:245-259 | a block can be copied, and its copy again exactly when it has no signatures |
| Signing.SignersOfCopy | blockchain/block.go:245-259 | a copy has its block's signers in order, whatever nil entries come first |
| Signing.BlockBuffer.Put | service/struct.go:278-283 | buffers the block under its hash and changes no other entry |
| Signing.BlockBuffer.Set | service/struct.go:289-297 | buffers a new block; signs a known one again with its own hash as key |
| Signing.BlockBuffer.HalfMore | service/struct.go:299-307 | below 2^63 exactly the buffered blocks with more than memberLen entries, each once; from there on, where the conversion to int is negative, all of them |
| Signing.BlockBuffer.In | service/struct.go:309-313 | tells whether the hash is buffered |
| Signing.QuorumsIntersect | service/struct.go:299-307 | two blocks with more than t distinct signers each, out of at most 2t + 1 members, share a signer |
| Signing.QuorumsCanBeDisjoint | service/struct.go:299-307 | that bound is exact: with any 2t + 2 members or more there are two such sets of signers with none in common |
| SigningRuns.ReceiveCandidate | service/service.go:1039-1050 | buffers a copy with exactly the node's signature and forwards, unless the timer is off or the block is known; crashes on a block that comes with signatures |
| SigningRuns.RunKeepsInv | service/service.go:471-485 | in every run no node crashes and every buffered block has one signer, or one and its own hash |
| SigningRuns.NoBlockSelectableFromHeightTwo | service/service.go:419-431 | so no leader ever has a block to propose at height 2 or above |
| SigningRuns.SelectableIff | service/service.go:499-520 | with requests routed as proxies do, past the node they came from, and timers and key maps left open: a node can get a selectable block at height 0 exactly when some node has it as a peer, or some node has a peer and not all keys are its own; at height 1 exactly in the second case; from height 2 on never |
| SigningRuns.SelectBlocks | service/service.go:419-424 | the leader's choice at a height: no block exactly when none is selectable there, that is when no buffered block has more than min(height, 11) entries, and otherwise exactly the selectable ones |
| SigningRuns.SetIsRequest | service/struct.go:289-297 | the buffer's Set is the exchange's request step: a new block is held as it came, a held one gets its own hash as one more signer exactly when no entry is nil or has it already, and no other block changes |
| SigningRuns.AuthorsKept | service/service.go:471-485 | in every run, whatever is buffered or was sent was mined with that hash and that author |
| SigningRuns.SignersStay | service/struct.go:289-297 | no step of any run takes a signature away |
| SigningRuns.FullCountOutOfReach | service/service.go:419-423 | distinct member signatures alone never exceed the full member count |
| Wire.FillLittleEndian | blockchain/common.go:133-150 | overwrites exactly the first bytes of the buffer with the little-endian value |
| Bytes.ByteAt | blockchain/common.go:133-150 | byte i of a number written at any width is its digit of weight 256^i |
| Wire.FreeList.Borrow | blockchain/common.go:34-42 | the oldest listed buffer, or a new one, of length 8 and no longer on the list |
| Wire.FreeList.Return | blockchain/common.go:46-52 | appends the buffer unless 1024 are listed |
| Wire.FreeList.PutUint | blockchain/common.go:111-150 | writes exactly the value's bytes, whatever the recycled buffer held, as far as the writer takes them |
| Wire.FreeList.ReadUint | blockchain/common.go:56-107 | reads exactly the value of the next bytes, or fails on a short input |
| Wire.WriteElement | blockchain/common.go:157-182 | the encoding of each element type, and the error of a short write |
| Wire.EncodedAs | blockchain/common.go:157-182 | unsigned numbers read back, 32-bit ones are in two's complement, 64-bit signed ones are their low 32 bits and four zeros, flags one byte, byte strings themselves |
| Wire.WriteElements | blockchain/common.go:186-194 | elements go out back to back; on failure a prefix of the whole encoding has been written |
| Wire.Int64SurvivesIff | blockchain/common.go:164-165 | a signed 64-bit element keeps its value exactly when it is in [0, 2^32) |
| Wire.HeaderBytes | blockchain/blockheader.go:4-7 | a header takes exactly 76 bytes, field by field |
| Wire.WriteBlockHeader | blockchain/blockheader.go:41-45 | writes those 76 bytes, independent of stale buffers |
| Wire.ReadBlockHeader | blockchain/block.go:57-60 | is the field-by-field inverse, and fails exactly on fewer than 76 bytes |
| Wire.HeaderRoundTrip | blockchain/blockheader.go:41-45 | reading back recovers every field, the time modulo 2^32, and leaves what follows |
| Wire.HeaderRecoveredIff | blockchain/blockheader.go:42 | the header comes back whole exactly for times in [0, 2^32) |
| Wire.ParsedBytesRewritten | blockchain/block.go:57-69 | any 76 bytes are the encoding of the header they parse to |
| Wire.BlockHashCollidesIff | blockchain/blockheader.go:22-26 | two headers have one BlockHash exactly when version and the first 28 bytes of the previous hash agree |
| FreeListRuns.EveryRunKeepsBuffersApart | blockchain/common.go:34-150 | under every interleaving, short reads included, lent buffers are distinct and off the list, all have 8 bytes, the list stays within 1024 |
| FreeListRuns.EveryEventIsOwnValue | blockchain/common.go:56-150 | under every interleaving each writer emits and each reader decodes exactly its own value |
| FreeListRuns.BorrowedOrMade | blockchain/common.go:34-42 | a buffer is made only when the list is empty; otherwise its oldest one is lent |
| FreeListRuns.ReturnedOrFull | blockchain/common.go:46-52 | a returned buffer is on the list, unless 1024 were |
| FreeListRuns.NoBufferLost | blockchain/common.go:34-52 | as long as at most 1024 buffers were ever made, every interleaving keeps each of them on the list or lent |
| Mining.Block.CalculateHash | blockchain/block.go:217-242 | hashes the header's fields in order into a fresh buffer |
| Mining.PreimageEqualIff | blockchain/block.go:217-242 | equal hashed bytes mean equal headers, except for the boundary between key and data |
| Mining.PreimageRoundTrip | blockchain/block.go:217-242 | bytes 0-4 of what is hashed decode to the version, 4-8 to bits, 8-16 to the nonce, 16-24 to the time; then previous hash, key and data |
| Mining.TryNonce | mining/miner.go:92-106 | one pass writes nonce and time through the aliased header; it wins exactly when the hash does not fail and the digest is at most the target, and goes on exactly when it is above; a win stores the reversed digest |
| Mining.SolveBlock | mining/miner.go:76-109 | the outcome and the final header of the whole search; only nonce, time and hash change |
| Mining.StopAtIsFirst | mining/miner.go:84-107 | the search ends on the first pass that quits, fails or wins |
| Mining.SolvedIff | mining/miner.go:84-107 | it returns true exactly when on some pass the digest read as a little-endian number is at most the target, and no quit or hash error is seen up to it |
| Mining.FinalIs | mining/miner.go:84-106 | the outcome and header where the search ends: quit is looked at before the header is touched, an error or a win after |
| Mining.EachNonceOnce | mining/miner.go:84-93 | any 2^32 passes in a row try every nonce on exactly one pass: the counter wraps and cycles |
| Mining.RunningIff | mining/miner.go:84-108 | a search goes on exactly as long as it meets no quit and no hash error and every digest is above the target |
| Mining.NeverExhausted | mining/miner.go:84-108 | a search still going on has seen, in every such stretch and for every nonce, a digest above the target at that pass's time; the last return is never reached |
| MinerLifecycle.Miner.Start | mining/miner.go:27-41 | refines the machine's Start and keeps its invariant |
| MinerLifecycle.Miner.Stop | mining/miner.go:112-124 | refines the machine's Stop, after which no worker is blocked |
| MinerLifecycle.RunKeepsInv | mining/miner.go:27-74 | the invariant holds after any interleaving |
| MinerLifecycle.LifecycleSafe | mining/miner.go:27-124 | started holds exactly when the current channel is open, older ones are closed, none is closed twice, only a started miner has a blocked worker, callbacks never exceed effective Starts |
| MinerLifecycle.CalledIff | mining/miner.go:57-74 | in every interleaving the callback is called for exactly the generators that solved their block, once for each |
| MinerLifecycle.StoppedNeverStuck | mining/miner.go:43-74 | while a stopped miner has a goroutine left, one can advance, even a worker that reads m.quit late |
| MinerLifecycle.AdvanceCounts | mining/miner.go:43-74 | every such advance uses up exactly one of the remaining steps |
| MinerLifecycle.DrainBound | mining/miner.go:43-74 | after exactly that many, every worker has finished and every generator exited |
| MinerLifecycle.LateReaderIff | mining/miner.go:43-53 | a stopped miner's worker can be blocked again, and its generator so outlive Stop, exactly when it has not read m.quit yet |
| MinerLifecycle.LateReaderSurvivesStop | mining/miner.go:48-52 | an instance: two generators mine in the second session |
| BlockDb.BlockDB.StoreBlock | service/struct.go:150-175 | stores under the block's own hash, nothing under an empty one |
| BlockDb.BlockDB.SetLatest | service/struct.go:196-201 | moves latest and the height's index entry |
| BlockDb.BlockDB.Latest | service/struct.go:189-194 | the block the latest pointer names |
| BlockDb.BlockDB.ByID | service/struct.go:204-222 | the block under the hash, none for an empty hash |
| BlockDb.BlockDB.ByIndex | service/struct.go:245-252 | an error without an index entry, else the block it names, if stored |
| BlockDb.BlockDB.BuildIndex | service/struct.go:225-243 | the scan in the bucket's order |
| BlockDb.AcceptsIff | service/service.go:1070-1083 | in a coherent store exactly new hashes at heights not indexed are accepted |
| BlockDb.RejectsWhatItFinds | service/service.go:1070-1083 | in any store a block is rejected exactly when one is stored under its hash, or under the hash indexed at its height |
| BlockDb.GossipKeepsCoherentIff | service/service.go:1067-1095 | gossip keeps the store coherent (except for a block without a hash, which leaves the node with no latest block), never replaces a stored block or an indexed height, and makes every accepted block the latest |
| BlockDb.AdoptKeepsCoherent | service/service.go:464-465 | storing one's own block keeps the store coherent and replaces an index entry exactly when its height was indexed |
| BlockDb.ScanIndex | service/struct.go:225-243 | after any scan each height points to a scanned block of that height, and latest is the last key |
| BlockDb.ScanRebuildsIndex | service/struct.go:225-243 | with distinct heights every order rebuilds the same height map |
| BlockDb.RestartRestoresIff | service/struct.go:225-243 | a restart restores the whole state exactly when the latest block's key is visited last |
| BlockDb.ScanOrderMattersIff | service/struct.go:225-243 | all orders give one index exactly when stored heights are distinct |
| Chain.CopyInto | service/service.go:454 | copies the source exactly when both sides have one length |
| Chain.HelloPreimageEqualIff | blockchain/block.go:71-91 | blocks that hash the same bytes differ at most in their hash and ordered blocks, which the hash does not cover |
| Chain.HelloRoundTrip | blockchain/block.go:71-91 | bytes 0-4 of what is hashed decode to the version, 4-12 to the height, 12-20 to the time; then previous hash, Merkle root and key |
| Chain.ReadCopyableIff | service/struct.go:127-145 | a head block read from the store can be copied again exactly when none of its ordered blocks is signed |
| Chain.Read | service/struct.go:127-145 | the stored block in new arrays, its ordered blocks copied once |
| Chain.HelloBlock.Copy | blockchain/block.go:93-155 | an equal block whose byte arrays are all new, with nil entries before the signatures of its ordered blocks; or a crash exactly when there are some already |
| Chain.HelloBlock.CalculateHash | blockchain/block.go:71-91 | hashes the fields in order |
| Chain.BuildProposal | service/service.go:451-463 | time, key and ordered blocks are the given ones, version and Merkle root those of latest, the height one up, hash and previous hash copied over the old bytes; not a byte of the latest block changes; or the crash of copying it |
| Chain.ProposalLinkedIff | service/service.go:451-463 | the proposal names the latest hash exactly when the previous-hash field has its length, carries its own digest exactly with 32-byte hashes, and is one height up unless that wraps |
| Chain.ProposalsDiffer | service/service.go:451-463 | proposals on one block hash the same bytes exactly when their times and keys are the same |
| Chain.GossipKeepsLinkedIff | service/service.go:1067-1095 | a gossiped block keeps the chain linked exactly when it is rejected or extends the tip |
| Chain.StaleProposalLinkedIff | service/service.go:443-466 | a proposal on a block read before the wait keeps the chain linked exactly when at most one block arrived meanwhile; latest falls back otherwise |
| Chain.EventKeepsLinked | service/service.go:437-469 | genesis, proposals and in-order deliveries keep the chain linked and grow it by exactly one block, or crash on a signed latest block and leave it |
| Chain.RunsAreLinked | service/service.go:313-327 | so after every such run heights 0 to latest are indexed and each block names the hash one height below |
| Chain.IndexIsWalk | service/struct.go:245-252 | lookup by height is the walk back from latest, one height a step, and the walk ends below height 0 |
| Membership.IsBFTMember | service/service.go:701-712 | true exactly when the key made one of the last min(11, available) blocks, on any store |
| Membership.AdvancingPublicKeyMap | service/service.go:986-1006 | the walk that moves finds exactly those keys, and crashes exactly on a latest block with signed ordered blocks |
| Membership.ShadowedPublicKeyMap | service/service.go:986-1006 | the walk as written finds only the latest author, with the same crash |
| Membership.ShadowedIsCommitteeIff | service/service.go:996-1005 | which is a subset, and everyone exactly when all those blocks have one author |
| Membership.CommitteeOnChain | service/service.go:701-712 | on a linked chain the walk covers exactly the last min(11, height + 1) heights, newest first |
| Membership.ThresholdAgainstCommittee | service/service.go:419-423 | committee signatures exceed the threshold exactly below height 11 when all members are different and have signed |
| Serving.GetBlockByIndex | service/service.go:548-571 | the answer for every store and height: inactive exactly without a latest block, latest at and above its height, the endless fallback included |
| Serving.RefetchNeverMoves | service/service.go:560-567 | the fallback stays on one block for any number of turns |
| Serving.ServesHeightIff | service/service.go:548-571 | it answers with the height asked for exactly at latest, and below when indexed; above it answers latest |
| Serving.ServedIsWalk | service/service.go:548-571 | on a linked chain the answer is the block a walk along previous hashes arrives at |
| Serving.DownloadBlocks | service/service.go:1110-1136 | the silent refusal of a foreign chain, the error of an empty reply, the crash, or exactly the consecutive indexed heights from start, below size |
| Serving.StretchOnChain | service/service.go:1121-1128 | on a linked chain, every height asked for that it has; a height crashes the node exactly when its ordered blocks are signed |
| Serving.StretchIs | service/service.go:1121-1128 | on any store: all heights counted are indexed and below the end, and counting stops early only before one that is not |
| Serving.SyncBringsNothingNew | service/service.go:768-784 | between any two nodes the request is answered with a block exactly when both have the same block at height 0, the other node reports a height above 0 and the requester's latest block is at height 0; the answer is then that block alone |
| Serving.HandleDownloadResponse | service/service.go:1139-1166 | for every store and reply: nothing new is ever stored; the crash on a height without a block, and on a greatest height that is no position in the reply; otherwise the block at that position becomes the latest |
| Serving.TopHeightIs | service/service.go:1150-1158 | in a coherent store the greatest height is the greatest one in the reply |
| Serving.Synchronise | service/service.go:768-784 | request, reply and response together: between any two nodes the requester does not crash and ends with the store it began with |
| Flood.ClosedAlongPath | service/service.go:244-250 | what every node passes on to its peers reaches everyone along every path |
| Flood.BalancedReceive | service/service.go:1097 | a delivery uses one message; learning an item pays for the node's own messages |
| Flood.BalancedSend | service/service.go:466 | sending an item of one's own, new to the network, new to the node, or neither |
| Flood.BroadcastContents | service/service.go:244-250 | one message for every entry of the peer list, and no other |
| Flood.TimesIsProduct | service/service.go:244-250 | the traffic counted for k items over d edges is their product |
| BlockFlood.StepKeepsInv | service/service.go:1067-1098 | every step keeps stores coherent, coverage and the traffic balance |
| BlockFlood.RunKeeps | service/service.go:1067-1098 | so does every run, on every peer graph |
| BlockFlood.AcceptsMissingHeights | service/service.go:1070-1083 | in every run a node accepts exactly the heights it lacks, hence one block a height |
| BlockFlood.TrafficConserved | service/service.go:244-250 | deliveries made and still to come are exactly one per edge and height produced, plus the messages of proposals at heights already indexed |
| BlockFlood.DeliveryUsesOne | service/service.go:1067-1098 | every delivery lowers what is still to come by exactly one, so flooding ends |
| BlockFlood.QuiescentConverged | service/service.go:1067-1098 | with nothing in flight, a node's heights are with every node along every path |
| BlockFlood.SoleBlockEverywhere | service/service.go:1067-1098 | if one block only was produced at a height, all of them have that block |
| BlockFlood.ProposalReachesAll | service/service.go:437-469 | in particular everyone reachable from its proposer |
| BlockFlood.FirstWriterWins | service/service.go:1070-1095 | a node's block at a height changes exactly when the node itself proposes there again |
| AddressFlood.NewOnesContents | service/service.go:970-976 | the list passed on holds exactly the addresses that are new, each once |
| AddressFlood.NewOnesInOrder | service/service.go:970-976 | in the order in which the list has them first |
| AddressFlood.RunKeeps | service/service.go:963-984 | every add-only run, on every peer graph, keeps coverage, origin and the traffic bound |
| AddressFlood.HeldOrComing | service/service.go:963-984 | an address of a node is with each peer or on its way there |
| AddressFlood.NothingInvented | service/service.go:197-216 | no address appears that no add named |
| AddressFlood.TrafficBounded | service/service.go:963-984 | every delivery strictly lowers what is pending; all traffic stays within one message per edge and address, plus the messages of adds that brought nothing new |
| AddressFlood.QuiescentConverged | service/service.go:963-984 | with nothing in flight, a node's addresses are with every node along every path |
| AddressFlood.AddedReachesAll | service/service.go:197-216 | whatever was added anywhere in the run has then reached every node reachable from there |
| RefererFlood.OneRefererConserved | service/service.go:1051-1066 | referer blocks with one hash cost exactly one message per edge, plus those of proposers and of nodes that forgot |
| RefererFlood.ForgettingRepeats | service/service.go:1051-1069 | a block that comes back costs one message; if a head block came in between it goes to every peer again |
| RefererFlood.NothingInvented | service/service.go:1051-1066 | in every run, only proposed blocks are remembered or in flight; with one block proposed it is that one |
| RefererFlood.ProposalReachesAll | service/service.go:1051-1066 | if nothing is forgotten, at quiescence every node that a path leads to from a proposer remembers a proposed block |
| RefererFlood.SameHashDiverges | service/service.go:1053 | on every graph, two blocks of one proposer with one hash can leave any two of its peers with different blocks for good |
| RefererFlood.PeersAgreeIff | service/service.go:1051-1066 | two peers of the proposer of two such blocks agree at the end of every run exactly when the two are one block |
| RefererWalks.WalkChased | service/service.go:1053-1062 | two blocks with different hashes, which no leader of this program makes, follow each other along any path |
| RefererWalks.TwoReferersUnbounded | service/service.go:1053-1062 | and round any closed walk any number of times, after just two proposals |
| RefererWalks.ShortPathsBounded | service/service.go:1053-1062 | where paths are short, every run stays within a budget fixed by its proposals, whatever their hashes and whatever is forgotten |
| RefererWalks.NeverRestsIff | service/service.go:1053-1062 | so the handler lets two such blocks, from other software, cause any amount of traffic exactly on graphs with a closed walk |
| Leadership.LeadershipNeverRotates | service/service.go:437-442 | in every run all blocks but genesis are made by the leader genesis names, who is also its author, and name it again; only that node ever starts a proposal |
| Leadership.NeverPastTheFirstBlock | service/service.go:451 | in every run every block any node has is the genesis block or lies one height above it with signed candidates, and cannot be copied again |
| Leadership.ProposalCrashesIff | service/service.go:451 | of all proposals, exactly those on an unsigned genesis block do not crash |
| Leadership.SelectableInRunsIff | service/service.go:363-431 | with chain, committee and key maps as they are: a node can get a selectable block exactly at height 0, if it has the key of genesis's author, some node has it as a peer, and genesis gives miners something to mine for |
| Leadership.NoRequestArrives | service/service.go:508-516 | in no run does a proxy send a signature request on to anyone |
| Leadership.GrowsIff | service/service.go:363-469 | some run has another block than genesis exactly when genesis can be stored, is unsigned, lies at height 0, names its own author as leader, and that is a node of the network that some node has as a peer |
| Leadership.CommitteeOfOne | service/service.go:701-712 | in every run the signing committee is the author of genesis alone, and the key map as written is the whole committee |
| Leadership.DownloadStores | service/struct.go:150-201 | a download of these runs stores the block under its hash and may make it the latest, and changes nothing else |
| Node.Service.IsLeader | service/service.go:688-699 | whether the first ordered block of latest has the node's key |
| Node.Service.StartTimer | service/service.go:363-373 | only a committee member's timer starts, and only one at a time |
| Node.Service.EndTimer | service/service.go:379-409 | the timer stops, and whether the node is then still a member and leads |
| Node.Service.BroadcastHead | service/service.go:244-250 | one copy for every peer, whatever the order |
| Node.Service.BroadcastReferer | service/service.go:244-250 | the same for referer blocks |
| Node.Service.BroadcastAddressTx | service/service.go:304-310 | the same for address lists |
| Node.Service.HandleHeadBlock | service/service.go:1067-1098 | the store after gossip, what is sent, and the referer block forgotten in every case |
| Node.DeltaCrashesIff | service/clock.go:52-67 | in a coherent store the delay estimate crashes exactly before the node has any block |
| Node.DeltaCrashesInAnyStore | service/clock.go:52-67 | in any store: without a latest block, or with an entry that names no stored block 11 heights below it, modulo 2^64 |
| Node.Service.HandleCandidate | service/service.go:1039-1050 | what is buffered and sent, and the crash on a candidate that comes with signatures |
| Node.Service.HandleReferer | service/service.go:1051-1066 | what is remembered, sent and started, and when the delay estimate crashes the node |
| Node.Service.HandleBlockMessage | service/service.go:1009-1107 | for every kind of message, a payload that is not of its type included, the error, the crash and the whole new state |
| Node.Service.CreateGenesisBlock | service/service.go:313-327 | adopted and sent exactly by a node without a latest block |
| Node.Service.FinishProposal | service/service.go:451-467 | the proposal on the block read earlier is stored, becomes latest and is sent; or the node crashes, exactly when that block's ordered blocks are signed |
| Node.Service.HandleAddresses | service/service.go:963-984 | keeps all addresses and sends the new ones in one message |
| Node.Service.AddAddresses | service/service.go:197-216 | keeps all addresses and sends the whole list |
| Node.Deliver | service/service.go:1067-1098 | handling any message in flight is exactly the model's delivery step, network-wide |
| Node.CreateGenesis | service/service.go:313-327 | creating genesis is exactly the model's genesis step |
| Node.Propose | service/service.go:451-467 | finishing a proposal with a fresh digest is an enabled proposal step of head-block flooding, or a crash that changes nothing |
| Node.Drain | service/service.go:1067-1098 | delivering in any order ends within the pending count, and then every node's heights are with all its peers |
| Node.RefererArrives | service/service.go:1051-1066 | handling a referer block is the proposing model's Start step exactly when it starts a proposal |
| Node.ProposalWaits | service/service.go:437-448 | what a started goroutine does before it waits is the Wait step, and no step when it goes no further |
| Node.ProposalMade | service/service.go:451-467 | and after the wait the Propose step, the crash included |
| Node.TimerStarts | service/service.go:363-373 | starting the timer is the proposing model's StartTimer step |
| Node.TimerEnds | service/service.go:379-409 | and ending it the EndTimer step |
| Node.HeadArrives | service/service.go:1067-1098 | handling a head block is the proposing model's Deliver step |
| NodeFloods.DeliverReferer | service/service.go:1051-1066 | handling any referer block in flight is exactly the referer flood's delivery step, network-wide, or a crash that only uses up the message |
| NodeFloods.HeadForgets | service/service.go:1067-1069 | handling a head block, accepted or not, is its Forget step |
| NodeFloods.ProposeReferer | service/service.go:244-250 | a leader's broadcast is its Propose step |
| NodeFloods.DeliverAddresses | service/service.go:963-984 | handling any address list in flight is exactly the address flood's delivery step, network-wide |
| NodeFloods.AddAddresses | service/service.go:197-216 | and an operator's list its Add step |

## Left out

- SHA-256 itself; digests are assumed fresh only where a proposal is stored or chained.
- bbolt, onet, protobuf and persistence: the bucket is a map, messages in flight are a multiset, storing succeeds.
- Real time: waits and timeouts are steps that may happen at any point; how long they take is left out.
- Data races: each handler is one atomic step. Sends started with `go` count as in flight from then on.
- Lost messages: the convergence statements are about lossless networks; `SigningRuns` and `Leadership` allow loss and repetition.
- The handshake, also the one that follows a download response; `Leadership` allows downloads of any block at any time, although `Serving.HandleDownloadResponse` never stores a new one.
- `Proxy` del and changes of peers during a run: they change state without sending anything, and no convergence holds for them.
- Convergence of candidate flooding, which depends on each node's timer.
- BlockFlood.Run: the timers that accepted head blocks start are not part of it; their proposals may happen at any time.
- Wire.FreeList.PutUint: only little-endian order is modelled, the only one the repository uses; `binary.Write` for other element types is left out.
- Mining.SolveBlock: two generators that search the same block object at once are not modelled; the ticks are one search's own.
- MinerLifecycle.Miner.Start: the block and the callback are not part of the lifecycle state.
- Node.Service.HandleReferer: the value of the delay estimate (`calcDelta`) is left out; when computing it crashes is not.
- Leadership.Run: a crashed node goes on from its store and keeps its goroutines, and a passed timer may send its buffer again, which allows more runs than there are; gateways beyond the nodes' keys are left out, mining may find any digest, and the steps Select and Sign have no method in `Node`.
- SigningRuns.Run: when timers run, who sends its buffer and what key maps hold is left open; `Leadership.Run` fixes all three by the committee.
- RefererFlood.Run: all nodes have a chain; one without any block crashes on its first referer block, as `Node.Service.HandleReferer` states.
- Chain.Read: a head block stored without a referer block inside, which the program would crash on, is not modelled.
- `initChainState` and `deserializeBlockRow`: they do not parse, and node insertion is commented out.
- Addresses and transactions of head blocks: no modelled branch looks at them.
- The transaction pool, the client API, the command-line programs, configuration, genesis constants and `utils`: nothing there is hard.
