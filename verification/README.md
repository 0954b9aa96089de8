# Verified algorithms of DDNet

Dafny 4.11 models of the self-contained algorithms of the DDNet client and server tree, with proofs of
what each of them is for. `dafny verify dfyconfig.toml` checks the whole project.

| part | files |
|---|---|
| random numbers (PCG-XSH-RR) | `Prng`, `PrngOutput`, `PrngDemo`, over `TwoAdic`, `Bits`, `Arith` |
| Huffman compression: the code, how deep it gets, that none is shorter, which tree it is, the packets of the game and its tree | `Huffman`, `HuffmanTable`, `HuffmanCodec`, `HuffmanDepth`, `HuffmanOptimal`, `HuffmanOrder`, `NetBase`, `HuffmanGame` |
| UTF-8 codec and the string functions that keep it whole | `Utf8`, `Utf8Strings` |
| edit distance in a shared two-row buffer | `EditDistance`, `EditDistanceBuffer` |
| asynchronous file output: ring buffer, threads, both together | `AsyncIo`, `AsyncIoProtocol`, `AsyncIoRefinement`, `AsyncIoClosing` |
| streaming SHA-256 against FIPS 180-4 | `Words`, `Sha256Spec`, `Sha256`, `Sha256Stream`, `Sha256Constants`, `Sha256Vectors` |
| base64 | `Base64`, `Base64Buffer`, `Base64Vectors` |
| pixel art: merging equal cells into rectangles | `PixelArt`, `PixelArtMerge`, `PixelArtInsert` |
| the hook of the characters | `Hook`, `HookCore`, `HookTicks` |
| box movement against the tile grid | `MoveBox`, `MoveBoxSteps` |
| printing and parsing network addresses | `NetAddrText`, `NetAddr`, `NetAddrForms` |
| confusable characters: generator, packed table, comparison | `Confusables`, `ConfusablesEnd`, `ConfusablesTable`, `ConfusablesOverflow`, `ConfusablesCompare`, over `Sequences` |
| hand-over of early log messages | `FutureLogger` |
| skip index of tile rows | `TilemapSkip` |
| RGB and HSL | `Color` |

Code that changes state in the original is a class or a method over arrays here, proved against a function
of the old state; what the original promises is then proved about that function, for every input, run or
interleaving. The two protocols (`AsyncIoProtocol`, `FutureLogger`) are state machines whose steps are the
lock, unlock, semaphore, atomic and file operations of the original, for any number of user threads.

Some things turned out to be different from what one would expect; each is stated exactly:

- A write to the ring buffer that does not fit in place ends in a buffer that holds everything if and only if at most
  2^31 bytes are needed. For needs up to 2^32 the doubling loop never ends, and beyond, where the needed size itself
  wraps, it ends with a buffer that is too small (`AsyncIo.GrowthOutcome`).
- When the worker has left after a close, a write is still accepted but never reaches the file. A wait delivers what was
  accepted before it if and only if nothing was written between the worker's exit and the wait
  (`AsyncIoProtocol.WaitDelivers`, `AsyncIoProtocol.LostWrite`).
- The table generator checks that the length index fits its three bits but not that the offsets fit their thirteen. They
  all fit if and only if the last one is below 2^13 (`ConfusablesTable.OffsetsFitIff`); there are confusables that the
  script accepts and for which they do not (`ConfusablesOverflow.LargeTableIsUnfaithful`).
- The generator's rewriting leaves nothing to replace, from every character, if and only if there is a rank that every
  whole pass lowers (`Confusables.ClearsIffRank`), and as many passes as there are keys decide that
  (`Confusables.RankIffChecked`). The single maps need no such rank (`Confusables.MaskedCycleClears`). The loop can also
  end with something left to replace, but only if some character is replaced by a list that holds it
  (`Confusables.EndsIffRank`, `Confusables.SelfReplacementEnds`). For any maps at all, it ends from every character if and
  only if as many passes as there are keys leave every key at a stable list (`ConfusablesEnd.EndsIffChecked`).
- The IPv4 form of an address is read to its end (`NetAddrForms.DottedAccepted`), the IPv6 form is not: it is accepted if
  and only if the part in brackets is an address and, where a colon follows the bracket, a port follows the colon
  (`NetAddr.BracketedAccepted`). The rest is ignored, such as the `x` of `[::]x` and of `[::]:80x` (`NetAddr.TrailingInstances`). An accepted text is read to its end
  if and only if nothing follows the bracket, or a colon and nothing but digits (`NetAddr.ReadToEndIff`).
- The accumulators of the Huffman codec are only sure to hold codes of up to 24 bits. Nothing in the construction limits
  the codes to that, but frequencies that sum up to less than Fib(27), or to less than Fib(26) beside one that outweighs
  all others, do (`HuffmanDepth.ShallowIsShort`); with the table of the game no code is longer than 22 bits
  (`NetBase.LongestCode`).

Answers that the files under `src/test` expect are proved of the same functions: the first six random numbers, two digests,
the compressed message, address texts, base64 texts.

## Model

| member | source | states |
|---|---|---|
| Prng.CPrng.Seed | src/game/prng.cpp:31-41 | seeding makes the increment odd and determines it by the 63 low bits of the second seed; the state has moved one call from the seeded one |
| Prng.CPrng.RandomBits | src/game/prng.cpp:43-54 | one step of the 64-bit congruential generator, the output being the scrambled old state |
| Prng.StateAfterClosed | src/game/prng.cpp:50-51 | closed form of the state after d calls |
| TwoAdic.GeometricValuation | src/game/prng.cpp:50-51 | for a multiplier that is 1 modulo 4, 2^k divides 1 + a + ... + a^(d-1) if and only if it divides d |
| Prng.FullPeriod | src/game/prng.cpp:38-51 | for every seed the state comes back after d calls if and only if 2^64 divides d |
| Prng.SameStateIff | src/game/prng.cpp:43-54 | two points of a run show the same state exactly when their distance is a multiple of 2^64 |
| Prng.VisitedSize | src/game/prng.cpp:43-54 | the first n at most 2^64 states are pairwise different |
| Prng.EveryStateVisited | src/game/prng.cpp:43-54 | one period visits every 64-bit state |
| PrngOutput.RotateInverse | src/game/prng.cpp:26-29 | the 32-bit rotation stays in 32 bits and is undone by rotating by the complement |
| PrngOutput.UnshiftXorShift | src/game/prng.cpp:52 | the xor-shift of the state is injective: it has a left inverse |
| PrngOutput.XorShiftUnshift | src/game/prng.cpp:52 | and onto: the inverse is a right inverse too |
| PrngOutput.StateOfIsRight | src/game/prng.cpp:47-53 | for each 32-bit output and each 32-bit residue there is a state that has them |
| PrngOutput.StateOfIsOnly | src/game/prng.cpp:47-53 | and no other state has them |
| PrngOutput.EveryOutputEquallyOften | src/game/prng.cpp:43-54 | over one period every 32-bit value comes out of exactly 2^32 calls |
| PrngDemo.OutputIs | src/game/prng.cpp:50-54 | the output from its parts: which bits are combined, and by how much the rest is rotated |
| PrngDemo.EqualsPcg32GlobalDemo | src/test/prng.cpp:35-63 | seeded with 42 and 54 the generator answers 0xA15C02B7, 0x7B47F409, 0xBA1D3330, 0x83D2F293, 0xBFA4784B, 0xCBED606E |
| Huffman.FirstIsRead | src/engine/shared/huffman.cpp:238-269 | walking down by the bits of an encoded message arrives at its first symbol, and the remaining bits are the rest of the message |
| Huffman.DescendReads | src/engine/shared/huffman.cpp:104-127 | a walk of ten bits either hits that symbol or stops on the way to it |
| Huffman.UniquelyDecodable | src/engine/shared/huffman.cpp:131-196 | different messages have different encodings |
| HuffmanTable.SortKeeps | src/engine/shared/huffman.cpp:28-31 | the sort by descending frequency permutes the trees |
| HuffmanTable.LastTwoAreLeast | src/engine/shared/huffman.cpp:74-80 | the two trees merged are the least frequent |
| HuffmanTable.MergeForest | src/engine/shared/huffman.cpp:76-83 | a merge keeps every symbol below exactly one tree, once |
| HuffmanTable.BuildTree | src/engine/shared/huffman.cpp:47-87 | whatever the frequencies, and however their sums wrap around in an int, the merges end in one tree with every symbol once |
| HuffmanTable.SetBits | src/engine/shared/huffman.cpp:33-45 | every symbol below the node gets the path to it as its code, the others keep theirs |
| HuffmanTable.PathLeads | src/engine/shared/huffman.cpp:33-45 | that path leads to the symbol |
| HuffmanTable.BuildLut | src/engine/shared/huffman.cpp:104-127 | each entry is where a walk by its ten bits stops |
| HuffmanCodec.CHuffman.Init | src/engine/shared/huffman.cpp:93-128 | codes and table are those of one tree, the one the merges give, and each code is the path to its symbol |
| HuffmanCodec.LoadedIsEncoded | src/engine/shared/huffman.cpp:166-190 | symbols loaded one behind the other and the end symbol are the encoding |
| HuffmanCodec.PackLoad | src/engine/shared/huffman.cpp:134-139 | loading a code of at most 24 bits loses nothing in the 32-bit accumulator |
| HuffmanCodec.PackWrite | src/engine/shared/huffman.cpp:142-153 | writing a byte moves eight bits from the accumulator to the output |
| HuffmanCodec.CHuffman.Compress | src/engine/shared/huffman.cpp:131-201 | the output holds the encoding in EncodedLength / 8 + 1 bytes; it fails exactly when these do not fit |
| HuffmanCodec.StreamFill | src/engine/shared/huffman.cpp:224-229 | a byte read goes behind the bits in the accumulator |
| HuffmanCodec.CHuffman.Walk | src/engine/shared/huffman.cpp:251-268 | the walk behind the table arrives at the symbol with the rest of the bits |
| HuffmanCodec.CHuffman.TakeSymbol | src/engine/shared/huffman.cpp:238-269 | one symbol is taken, by the table alone or with the walk |
| HuffmanCodec.CHuffman.Decompress | src/engine/shared/huffman.cpp:204-283 | what was compressed from a message is that message again, or -1 if it does not fit the output; on any input nothing is written outside |
| HuffmanDepth.MergeKeepsTotal | src/engine/shared/huffman.cpp:74-80 | a merge keeps the sum of all frequencies; as long as that fits an int, so does every sum on the way |
| HuffmanDepth.MergeWeighed | src/engine/shared/huffman.cpp:74-83 | since the two least frequent are merged, no child of a tree outweighs another tree, and no nephew its uncle |
| HuffmanDepth.TreeWeighed | src/engine/shared/huffman.cpp:47-87 | so it is in the finished tree, and the root weighs all frequencies together |
| HuffmanDepth.DepthWeighs | src/engine/shared/huffman.cpp:71-84 | a symbol k levels below a node gives the node at least the weight Fib(k + 2) |
| HuffmanDepth.CodeLengthBound | src/engine/shared/huffman.cpp:33-90 | a code of k bits needs frequencies that sum up to at least Fib(k + 2) |
| HuffmanDepth.HeavyIsChild | src/engine/shared/huffman.cpp:71-84 | a symbol more frequent than all others together hangs directly below the root |
| HuffmanDepth.CodeLengthBesideHeavy | src/engine/shared/huffman.cpp:33-90 | it gets one bit, and the frequencies of the others bound the other codes |
| HuffmanDepth.ShallowIsShort | src/engine/shared/huffman.cpp:131-139 | which tables give codes of at most 24 bits for sure |
| HuffmanOptimal.SharesFit | src/engine/shared/huffman.cpp:33-45 | the inequality of Kraft: codes of which none begins with another leave room for one another |
| HuffmanOptimal.CodedIsPrefixFree | src/engine/shared/huffman.cpp:33-45 | codes that lead through one table of nodes to different symbols are such codes |
| HuffmanOptimal.MergingIsLeast | src/engine/shared/huffman.cpp:71-84 | no assignment of depths that leaves room costs less than merging the two least frequent again and again |
| HuffmanOptimal.CodesCost | src/engine/shared/huffman.cpp:47-91 | the codes of the tree cost exactly that |
| HuffmanOptimal.NoCodeIsCheaper | src/engine/shared/huffman.cpp:47-91 | of all codes of which none begins with another, none has a smaller sum of frequency times length |
| HuffmanOptimal.NoEncodingIsShorter | src/engine/shared/huffman.cpp:131-201 | with its own byte counts for frequencies, no message has a shorter encoding by any of these codes |
| HuffmanOrder.SortStable | src/engine/shared/huffman.cpp:74 | sorting leaves entries of the same frequency in their order |
| HuffmanOrder.SortIsOnly | src/engine/shared/huffman.cpp:74 | that and descending order determine what sorting does, for every list |
| HuffmanOrder.TreeInOrder | src/engine/shared/huffman.cpp:71-84 | each node takes the two rarest trees there are when it is made, the rarest as its zero child, and of equally rare ones the youngest first |
| HuffmanOrder.TreeIsOnly | src/engine/shared/huffman.cpp:47-87 | a table of nodes is the one that is built if and only if that holds of it |
| HuffmanOrder.ZeroIsRarer | src/engine/shared/huffman.cpp:77-78 | a zero child never outweighs the one child beside it |
| HuffmanOrder.HeavyCode | src/engine/shared/huffman.cpp:33-45 | a symbol that outweighs all others together has the code of the single bit 1 |
| NetBase.TableTotal | src/engine/shared/huffman.cpp:7-20 | besides the symbol 0, with 2^30, the frequencies of the game sum up to 44895 |
| NetBase.TableIsShallow | src/engine/shared/huffman.cpp:7-20 | that keeps every code within 24 bits |
| NetBase.LongestCode | src/engine/shared/huffman.cpp:7-20 | and indeed within 22, and the one of symbol 0 is a single bit |
| NetBase.CNetBase.Init | src/engine/shared/network.cpp:415-418 | sets up the codec with the table of the game |
| NetBase.CNetBase.Compress | src/engine/shared/network.cpp:405-408 | for every message: its encoding, in EncodedLength / 8 + 1 bytes, or -1 exactly if these do not fit |
| NetBase.CNetBase.Decompress | src/engine/shared/network.cpp:410-413 | for every compressed message: the message, or -1 exactly if it does not fit |
| NetBase.CNetBase.CompressionShouldNotChangeData | src/test/huffman.cpp:6-24 | every message comes back, given 22 bits of room for each of its bytes and the end |
| NetBase.CNetBase.SendData | src/engine/shared/network.cpp:144-160 | the data of a packet go out compressed exactly if that is wanted and makes them shorter |
| NetBase.CNetBase.ReceiveData | src/engine/shared/network.cpp:270-281 | what comes in is decompressed or copied as the flag says |
| NetBase.CNetBase.SendAndReceive | src/engine/shared/network.cpp:144-281 | the data of every packet arrive as they were sent |
| HuffmanGame.TreeOfGame | src/engine/shared/huffman.cpp:7-87 | the 256 nodes above the symbols, each with its children, that the table of the game leads to |
| HuffmanGame.SomeCodes | src/engine/shared/huffman.cpp:33-90 | the codes of the bytes 0 to 7 and of the end symbol |
| HuffmanGame.MessageEncoded | src/test/huffman.cpp:36-41 | the 118 bits of the bytes 0 to 7 followed by 56 zeros |
| HuffmanGame.CompressionCompatible | src/test/huffman.cpp:26-46 | that message compresses to the 15 bytes 51 58 78 76 1B B7 FF FF FF FF FF FF 7F C5 0D |
| Utf8.StrUtf8Decode | src/base/system.cpp:3784-3861 | the decoding loop, on any bytes, returns the character, 0 or -1 and the position that the one-character specification gives |
| Utf8.StrUtf8Encode | src/base/system.cpp:3751-3782 | writes exactly the RFC 3629 octets of a scalar value, for surrogates the three of the same form, for negative values their low byte, above U+10FFFF nothing, and nothing beyond |
| Utf8.DecodeStaysInside | src/base/system.cpp:3796-3861 | on a non-empty remainder decoding moves on, never past the terminator, valid input or not |
| Utf8.DecodeSound | src/base/system.cpp:3796-3861 | whatever decodes without error is a scalar value in its shortest form, of exactly the bytes consumed |
| Utf8.DecodeComplete | src/base/system.cpp:3796-3861 | every string starting with the encoding of a scalar value decodes to it |
| Utf8.Rfc3629Examples | src/base/system.cpp:3751-3782 | the encodings that section 7 of RFC 3629 gives as examples |
| Utf8Strings.StrUtf8Check | src/base/system.cpp:3863-3874 | true exactly for strings in which every decoding step succeeds |
| Utf8Strings.ValidIffEncoded | src/base/system.cpp:3863-3874 | these are exactly the sequences of RFC 3629 encodings of scalar values |
| Utf8Strings.StrUtf8Rewind | src/base/system.cpp:3713-3722 | goes back to the last start byte before the cursor |
| Utf8Strings.StrUtf8FixTruncation | src/base/system.cpp:3724-3739 | cuts the last character if it does not decode, and returns the length left |
| Utf8Strings.FixRepairsCut | src/base/system.cpp:3724-3739 | repairing any cut of a valid string leaves its longest prefix of whole characters |
| Utf8Strings.FloorIsValid | src/base/system.cpp:2721-2736 | the prefix by byte and character limits is valid and within the character limit |
| Utf8Strings.FloorIsLongest | src/base/system.cpp:2721-2736 | no valid prefix within both limits is longer |
| Utf8Strings.StrCopy | src/base/system.cpp:2714-2719 | the buffer holds the repaired cut, terminated, and nothing after its limit changes |
| Utf8Strings.CopyIsLongestPrefix | src/base/system.cpp:2714-2719 | of a valid string that is its longest valid prefix of at most size - 1 bytes |
| Utf8Strings.StrAppend | src/base/system.cpp:2697-2712 | the buffer holds the repaired cut of the two strings together |
| Utf8Strings.AppendStaysValid | src/base/system.cpp:2697-2712 | valid appended to valid stays valid, and is the longest valid prefix of the whole that fits |
| Utf8Strings.ValidConcat | src/base/system.cpp:3863-3874 | valid strings put together are valid |
| Utf8Strings.StrUtf8Truncate | src/base/system.cpp:2721-2736 | what the loop and the final copy leave in the buffer |
| Utf8Strings.TruncateIsLongestPrefix | src/base/system.cpp:2721-2736 | of a valid string that is its longest valid prefix within both limits |
| Utf8Strings.StrUtf8Forward | src/base/system.cpp:3741-3749 | moves over one character, or stays at the end |
| Utf8Strings.StrUtf8OffsetBytesToChars | src/base/system.cpp:3896-3909 | the number of decoding steps needed to reach the byte offset |
| Utf8Strings.StrUtf8OffsetCharsToBytes | src/base/system.cpp:3911-3922 | the byte offset after that many decoding steps |
| Utf8Strings.CharsBytesChars | src/base/system.cpp:3896-3922 | characters to bytes and back is the identity on the offsets of a string |
| Utf8Strings.BytesCharsBytes | src/base/system.cpp:3896-3922 | bytes to characters and back is the identity on character boundaries, and counts the characters before |
| EditDistance.DistTriangle | src/base/system.cpp:3068-3085 | triangle inequality for the recurrence |
| EditDistance.DistanceIsLowerBound | src/base/system.cpp:3068-3085 | no script of insertions, deletions and substitutions is shorter than the computed value |
| EditDistance.ShortestScript | src/base/system.cpp:3068-3085 | a script of exactly that length exists, for every pair of prefixes |
| EditDistance.DistanceIsMinimum | src/base/system.cpp:3053-3087 | the value is the minimum length of the scripts that turn a into b |
| EditDistance.DistanceIsMetric | src/base/system.cpp:3053-3087 | zero exactly for equal lists, symmetric, triangle inequality |
| EditDistanceBuffer.FirstRow | src/base/system.cpp:3069-3072 | row 0 is in place |
| EditDistanceBuffer.StoreEntry | src/base/system.cpp:3068-3082 | an entry written into its parity half extends its row and leaves the row before it intact |
| EditDistanceBuffer.FillRow | src/base/system.cpp:3075-3083 | the inner loop completes row j from row j - 1, in place |
| EditDistanceBuffer.FillTable | src/base/system.cpp:3069-3085 | all rows in two halves of the buffer, the operands left alone |
| EditDistanceBuffer.StrUtf32DistBuffer | src/base/system.cpp:3053-3087 | the two-row program with swapped operands, operands and rows possibly in one array, returns the distance |
| EditDistanceBuffer.StrToUtf32Unchecked | src/base/system.cpp:3042-3051 | writes the code points, -1 for each error, and nothing before them or after their terminator |
| EditDistanceBuffer.StrUtf8DistBuffer | src/base/system.cpp:3089-3107 | carving one buffer into operands and rows always leaves enough room; the result is the distance of the decoded strings |
| EditDistanceBuffer.StrUtf8Dist | src/base/system.cpp:3033-3040 | the allocated buffer is large enough |
| EditDistanceBuffer.ZeroIffSameString | src/base/system.cpp:3033-3040 | on valid UTF-8 the distance is zero exactly for equal byte strings |
| Utf8Strings.CodePointsOfEncoding | src/base/system.cpp:3042-3051 | decoding an encoded list of characters gives it back |
| AsyncIo.DoublingEndsIff | src/base/system.cpp:641-648 | the 32-bit doubling loop ends if and only if the need is at most 2^31 |
| AsyncIo.GrowthOutcome | src/base/system.cpp:680-686 | with the needed size computed modulo 2^32, a write that does not fit in place gets a buffer that holds everything if and only if at most 2^31 bytes are needed; between 2^31 and 2^32 the loop never ends, beyond it ends too small |
| AsyncIo.NextSizeIs | src/base/system.cpp:641-648 | the size arrived at is where the wrapping loop first meets the need |
| AsyncIo.NextBufferSize | src/base/system.cpp:641-648 | a power of two that fits the need, less than twice the need if the buffer grew |
| AsyncIo.Ring.constructor | src/base/system.cpp:593-616 | the ring starts empty |
| AsyncIo.Ring.BufferPtrs | src/base/system.cpp:501-516 | the two pieces, one after the other, are the contents |
| AsyncIo.Ring.BufferLen | src/base/system.cpp:629-639 | the number of pending bytes, always less than the capacity |
| AsyncIo.WriteFits | src/base/system.cpp:667-679 | a write that does not pass the end of the buffer appends to the contents |
| AsyncIo.WriteWraps | src/base/system.cpp:670-678 | neither does one that goes around the end lose or reorder a byte |
| AsyncIo.PutAppends | src/base/system.cpp:661-709 | in each branch the memory written to holds the old bytes and then the data |
| AsyncIo.Ring.WriteInPlace | src/base/system.cpp:667-679 | buffer and positions become those of the branch that finds room |
| AsyncIo.Ring.CopyPending | src/base/system.cpp:688-699 | the pending bytes are copied in order to the front of the new buffer |
| AsyncIo.Ring.WriteUnlocked | src/base/system.cpp:661-709 | buffer and positions are those specified, and the contents grow by exactly the data |
| AsyncIo.TakeFromRing | src/base/system.cpp:581 | moving the read position by n removes exactly the n oldest bytes |
| AsyncIo.Ring.CopyFront | src/base/system.cpp:562-580 | the local buffer gets the oldest bytes, at most 64 KiB, across the end of the ring |
| AsyncIo.Ring.Drain | src/base/system.cpp:562-581 | these bytes leave the ring and nothing else does |
| AsyncIoProtocol.LockPreserved | src/base/system.cpp:537-588 | mutual exclusion is kept by every step |
| AsyncIoProtocol.DataPreserved | src/base/system.cpp:533-591 | every step keeps file, in-flight buffer and ring together equal to everything accepted |
| AsyncIoProtocol.WakePreserved | src/base/system.cpp:545-560 | every step keeps that a sleeping worker with something to do is signalled or will be |
| AsyncIoProtocol.LifePreserved | src/base/system.cpp:518-531 | every step keeps the reference count in agreement with the releases, frees and closes |
| AsyncIoProtocol.RunInv | src/base/system.cpp:533-774 | these hold in every state of every interleaving |
| AsyncIoProtocol.BytesConserved | src/base/system.cpp:533-716 | file ++ local buffer ++ ring is the concatenation of all writes in lock order |
| AsyncIoProtocol.TimelyWaitDelivers | src/base/system.cpp:760-774 | when a wait has returned that began before the worker left, everything accepted before it is in the file |
| AsyncIoProtocol.GoneStays | src/base/system.cpp:545-555 | once the worker has left nothing is added to the file |
| AsyncIoProtocol.LateWait | src/base/system.cpp:545-555 | if the worker left before the wait began, what the wait covers is in the file if and only if every write between the two was empty |
| AsyncIoProtocol.WaitDelivers | src/base/system.cpp:760-774 | when the wait has returned, what was accepted before it is in the file if and only if nothing was written between a worker's exit and the wait |
| AsyncIoProtocol.LostWrite | src/base/system.cpp:711-774 | for any payload: close, the worker leaves, write, wait; the write is accepted, the wait returns, the file is empty |
| AsyncIoProtocol.LostForEver | src/base/system.cpp:711-774 | however such a run goes on, the payload never reaches the file |
| AsyncIoProtocol.WaitIsTimely | src/base/system.cpp:760-774 | a wait that finds the object running is never too late |
| AsyncIoProtocol.NoLostWakeup | src/base/system.cpp:545-560 | a worker asleep with no signal present or coming has an empty ring and is not asked to finish |
| AsyncIoProtocol.SingleRelease | src/base/system.cpp:518-560 | freed at most once, closed at most once, never touched after being freed nor written after being closed, and freed once both sides are through |
| AsyncIoClosing.ToldIs | src/base/system.cpp:751-771 | on every run the worker is told to close exactly if aio_close has been called, whatever else has |
| AsyncIoClosing.ClosedIff | src/base/system.cpp:545-555 | the file has been closed if and only if the worker has left after an aio_close |
| AsyncIoProtocol.WorkerAdvances | src/base/system.cpp:533-591 | after shutdown was asked for the worker is never stuck and each of its steps lowers a rank |
| AsyncIoProtocol.WorkerDrains | src/base/system.cpp:533-591 | so it empties the ring into the file and exits |
| AsyncIoRefinement.StepRefines | src/base/system.cpp:533-716 | every step on the real ring, with its two positions and its growing buffer, is the protocol's step on the pending bytes |
| AsyncIoRefinement.RunRefines | src/base/system.cpp:533-774 | so every run on the real ring is a run of the protocol |
| AsyncIoRefinement.RingBytesConserved | src/base/system.cpp:533-716 | file ++ local buffer ++ bytes in the ring is everything written, across wrap-around, doubling and partial drains |
| AsyncIoRefinement.RingDrained | src/base/system.cpp:545-555 | when the worker leaves the positions are equal and the file holds everything accepted |
| Words.ChAgrees | src/base/hash_libtomcrypt.cpp:55 | the shortened choice function is that of FIPS 180-4 |
| Words.MajAgrees | src/base/hash_libtomcrypt.cpp:56 | the shortened majority function is that of FIPS 180-4 |
| Sha256.FillSchedule | src/base/hash_libtomcrypt.cpp:73-79 | the array holds the message schedule of the block |
| Sha256.RoundInPlace | src/base/hash_libtomcrypt.cpp:82-102 | the macro on fixed positions and the rotation after it are one round on the working variables |
| Sha256.RunRounds | src/base/hash_libtomcrypt.cpp:91-103 | 64 passes are the 64 rounds |
| Sha256.ShaCompress | src/base/hash_libtomcrypt.cpp:64-108 | the state becomes the next hash value of section 6.2.2 |
| Sha256Stream.Context.constructor | src/base/hash_libtomcrypt.cpp:112-124 | the initial hash value, nothing absorbed |
| Sha256Stream.HashLocal | src/base/hash_libtomcrypt.cpp:126-156 | the hash value after n blocks depends on these blocks only |
| Sha256Stream.ExtendTail | src/base/hash_libtomcrypt.cpp:142-146 | a chunk that does not fill the block only lengthens the remainder |
| Sha256Stream.CompleteBlock | src/base/hash_libtomcrypt.cpp:148-153 | a chunk that fills it compresses remainder and chunk |
| Sha256Stream.Context.WholeBlock | src/base/hash_libtomcrypt.cpp:133-139 | the direct branch absorbs a whole block |
| Sha256Stream.Context.Buffer | src/base/hash_libtomcrypt.cpp:140-154 | the buffering branch absorbs its piece |
| Sha256Stream.Context.Process | src/base/hash_libtomcrypt.cpp:126-156 | any chunk: the state is the fold over the whole blocks so far, the buffer the remainder, the length their bits |
| Sha256Stream.Context.Update | src/base/hash_libtomcrypt.cpp:196-199 | the same for the part of the chunk within its length modulo 2^32, all of it below 2^32 |
| Sha256Stream.PadParts | src/base/hash_libtomcrypt.cpp:165-180 | in both cases of the extra block the bytes appended are the padding of section 5.1.1 |
| Sha256Stream.Context.PadTo56 | src/base/hash_libtomcrypt.cpp:165-180 | the buffer ends up with the last 56 bytes of the padded message |
| Sha256Stream.Context.StoreLength | src/base/hash_libtomcrypt.cpp:41-46 | the last eight bytes are the big-endian length |
| Sha256Stream.Context.StoreState | src/base/hash_libtomcrypt.cpp:186-188 | the output is the big-endian hash value |
| Sha256Stream.Context.Finish | src/base/hash_libtomcrypt.cpp:158-189 | the output is the FIPS 180-4 digest of everything absorbed |
| Sha256Spec.PadLength | src/base/hash_libtomcrypt.cpp:165-184 | the padding completes a block |
| Sha256Stream.DigestOfChunks | src/base/hash_libtomcrypt.cpp:191-206 | any split into chunks below 2^32 bytes gives the one-shot digest |
| Sha256Constants.PrimesInOrder | src/base/hash_libtomcrypt.cpp:16-29 | the first 64 primes, none left out |
| Sha256Constants.TablesAreRoots | src/base/hash_libtomcrypt.cpp:16-123 | the round constants and the initial hash value are the first 32 bits of the fractions of the cube roots and square roots of the first primes, as sections 4.2.2 and 5.3.3 of FIPS 180-4 say |
| Sha256Vectors.DigestOfEmpty | src/test/hash.cpp:17 | the digest of the empty message |
| Sha256Vectors.DigestOfSentence | src/test/hash.cpp:23-25 | the digest of the sentence about the quick brown fox |
| Base64.DigitInverse | src/base/system.cpp:3323-3346 | digit values and digits are inverse to each other, and `=` is none |
| Base64.DecodeEncode | src/base/system.cpp:3271-3415 | decoding the RFC 4648 encoding gives the bytes back |
| Base64.EncodeDecode | src/base/system.cpp:3348-3415 | every text accepted is exactly the encoding of what it decodes to, so padding and padding bits are canonical |
| Base64Vectors.Alphabet | src/base/system.cpp:3273 | the 64 digits in their order |
| Base64Vectors.Vectors | src/test/str.cpp:421-426 | the encodings of "pleasure.", "leasure." and "easure." |
| Base64Buffer.EncodedAt | src/base/system.cpp:3283-3320 | each character of the encoding by its bits |
| Base64Buffer.PushKeepsBits | src/base/system.cpp:3285-3290 | the overflow of the 32-bit accumulator never reaches bits still to be written |
| Base64Buffer.EncodeStep | src/base/system.cpp:3283-3320 | one pass of the loop writes the next character of the encoding |
| Base64Buffer.StrBase64 | src/base/system.cpp:3271-3321 | the buffer holds the encoding, cut to its size, and a terminator |
| Base64Buffer.DecodeGroup | src/base/system.cpp:3365-3413 | one group of four characters: its bytes or its error |
| Base64Buffer.StrBase64Decode | src/base/system.cpp:3348-3415 | -3 for a bad length, -2 for lack of room, the error of the first bad group, or all the bytes; otherwise as the specification of the text says |
| PixelArt.IndexInjective | src/tools/map_create_pixelart.cpp:116 | different pixels have different places in the mask |
| PixelArt.PixelsRead | src/tools/map_create_pixelart.cpp:214-229 | reading a pixel of an image gives the color written there, outside the image that of the nearest one |
| PixelArt.CoverShowsImage | src/tools/map_create_pixelart.cpp:105-137 | an exact cover shows every visible cell in its color and nothing else |
| PixelArt.SameImage | src/tools/map_create_pixelart.cpp:105-137 | so merged and unmerged quads paint the same image |
| PixelArt.CoveredOnce | src/tools/map_create_pixelart.cpp:105-137 | no cell lies in two quads |
| PixelArtMerge.SetVisitedPixels | src/tools/map_create_pixelart.cpp:244-249 | marks exactly the pixels of the rectangle |
| PixelArtMerge.ColumnHeight | src/tools/map_create_pixelart.cpp:145-146 | how far a column is free, up to the height so far |
| PixelArtMerge.GetOptimizedQuadSize | src/tools/map_create_pixelart.cpp:139-159 | picks the longest free run of the row and the greatest height free in all its columns, marks it, and stays inside the image |
| PixelArtMerge.OptimizableMeansFree | src/tools/map_create_pixelart.cpp:238-242 | at the corner of a cell the pixel test holds exactly if the cell lies in the grid, is unmarked and is of this visible color |
| PixelArtInsert.AddRect | src/tools/map_create_pixelart.cpp:131-132 | a quad on uncovered cells of one color keeps the quads disjoint |
| PixelArtInsert.PlaceGreedy | src/tools/map_create_pixelart.cpp:119-132 | the greedy rectangle keeps mask and quads in agreement |
| PixelArtInsert.CellsFit | src/tools/map_create_pixelart.cpp:86-87 | there are at most as many cells as quads allocated |
| PixelArtInsert.InsertRow | src/tools/map_create_pixelart.cpp:113-133 | one row of cells keeps the invariant |
| PixelArtInsert.InsertPixelArtQuads | src/tools/map_create_pixelart.cpp:105-137 | the new quads are an exact cover of the visible cells, fit the array and leave the quads before them alone |
| HookCore.CharacterCore.SetHookedPlayer | src/game/gamecore.cpp:649-671 | the objects change as the specification says: both players concerned are told by a character of the roster, none by one with id -1 or without a world |
| HookCore.CharacterCore.DoInput | src/game/gamecore.cpp:206-225 | the same for the input part |
| HookCore.CharacterCore.CheckPlayers | src/game/gamecore.cpp:289-314 | the same for the search for players |
| HookCore.CharacterCore.DoFly | src/game/gamecore.cpp:259-346 | the same for a flying hook |
| HookCore.CharacterCore.DoHold | src/game/gamecore.cpp:348-399 | the same for a grabbing hook |
| HookCore.CharacterCore.DoTick | src/game/gamecore.cpp:206-399 | the same for the whole Tick |
| Hook.SetHookedSteps | src/game/gamecore.cpp:649-671 | the change keeps the relation between hooked players and attached sets, and nobody else's hook |
| Hook.GrabsNearest | src/game/gamecore.cpp:289-314 | the search takes the nearest player within reach, the first of those, and changes nothing if there is none |
| Hook.HoldSteps | src/game/gamecore.cpp:348-399 | a held player stays the same, the count goes up by one, and at the limit the hook lets go |
| Hook.TickKeeps | src/game/gamecore.cpp:206-399 | every Tick of every player keeps the whole invariant |
| Hook.RunKeeps | src/game/gamecore.cpp:93-399 | on every run: i is attached to k exactly if i hooks k, nobody hooks himself, a hooked player means a grabbing hook, states stay in -1..5, held counts at most 60 |
| Hook.HeldCounts | src/game/gamecore.cpp:391-398 | while a player holds somebody it is the same one, and the count grows by one per own Tick |
| Hook.GrabIsBounded | src/game/gamecore.cpp:391-398 | so a grab lasts at most 60 of the grabber's Ticks less its starting count |
| Hook.OutsiderHoldsNobody | src/game/gamecore.cpp:350-361 | a character with id -1 lets go in the same Tick of whatever player it hooks |
| Hook.AloneHooksNobody | src/game/gamecore.cpp:206-399 | a character without a world hooks nobody |
| Hook.OnlyPlayersHold | src/game/gamecore.cpp:93-399 | so on every run only the characters of the roster hold anybody between two Ticks |
| HookTicks.KeyUpTick | src/game/gamecore.cpp:206-225 | with the key up a Tick ends idle, holding nobody |
| HookTicks.FlyingTick | src/game/gamecore.cpp:259-346 | a hook in the air that takes no player grabs exactly if it meets ground and is not too long, retracts exactly if it is too long or meets a tile without hold, and otherwise flies on |
| HookTicks.TakingTick | src/game/gamecore.cpp:289-399 | one that takes a player holds on to that player, whatever else it meets, or is retracted if it may not or the count is at its limit |
| HookTicks.GrabbedTick | src/game/gamecore.cpp:348-399 | one that has grabbed stays, on the ground while the key is held and on a player while it holds on, its count growing by one |
| HookTicks.RetractingTick | src/game/gamecore.cpp:243-258 | what the other states lead to |
| HookTicks.RetractsInThree | src/game/gamecore.cpp:249-258 | on every run with the key held a hook that starts to retract is retracted exactly from its third own Tick on |
| HookTicks.FliesAgain | src/game/gamecore.cpp:206-225 | on every run a hook that has grabbed or retracts flies again only after a Tick with the key up |
| MoveBox.NoTileBetween | src/game/collision.cpp:277-289 | between coordinates at most 31 apart lies no third tile |
| MoveBox.CornersSuffice | src/game/collision.cpp:470-482 | for sides up to 31 the corner test is true exactly if some point of the box is solid |
| MoveBox.Collide | src/game/collision.cpp:518-551 | one sub-step as specified |
| MoveBox.MoveBox | src/game/collision.cpp:484-557 | ends at the end of the specified path, early breaks included |
| MoveBox.NeverInSolid | src/game/collision.cpp:484-557 | whatever the rounding, a box that starts free passes only through free positions |
| MoveBox.LengthsBounded | src/game/collision.cpp:490-552 | over the reals no sub-step is longer than 1, travel per axis is at most the initial speed along it, and no speed exceeds the initial one |
| MoveBox.SpeedsNeverGrow | src/game/collision.cpp:496-552 | over the reals the speed along each axis never grows from one sub-step to the next, for any elasticity |
| MoveBox.FreeFlight | src/game/collision.cpp:495-509 | over the reals a box that meets nothing moves by exactly its velocity |
| MoveBoxSteps.PointIsSolid | src/game/collision.cpp:277-289 | a point is solid exactly if the tile it lies in, half a unit before each multiple of 32, is of one of the two solid kinds |
| MoveBoxSteps.PathIsSteps | src/game/collision.cpp:484-557 | over the reals a sequence of motions is the path if and only if each follows by the rule: a coordinate arrives if the aim is free, or if its axis alone is and the other is not; as many as the speed says or up to rest |
| MoveBoxSteps.BlockedBounces | src/game/collision.cpp:518-551 | a coordinate that does not arrive stays, and its speed becomes minus the clamped elasticity times what it was; one that arrives keeps its speed; ground contact begins exactly when y is blocked going down with elasticity |
| MoveBoxSteps.BlockedRests | src/game/collision.cpp:518-551 | without elasticity a blocked axis is at rest from then on |
| NetAddr.LongestZeros | src/base/system.cpp:1047-1088 | finds the first longest run of at least two zeros, as RFC 5952 section 4.2 asks |
| NetAddr.PutText | src/base/system.cpp:1089-1109 | a piece printed at position w of what is left of a buffer: the buffer holds the text so far, cut to its size |
| NetAddr.NetAddrStrV6 | src/base/system.cpp:1045-1110 | the buffer holds the compressed form with that run left out, and the port, cut to its size |
| NetAddr.NetAddrStr | src/base/system.cpp:1112-1138 | the buffer holds the text of the address, of either kind or of unknown type, cut to its size |
| NetAddr.WordsInverse | src/base/system.cpp:1130-1133 | the eight words determine the sixteen bytes |
| NetAddrText.ReadNumeral | src/base/system.cpp:1102 | reading digits undoes printing them, for base 10 and 16 |
| NetAddrText.ExpandPrinted | src/base/system.cpp:1089-1105 | expanding the printed text by RFC 4291 section 2.2 gives the eight words back, whichever run of zeros was left out |
| NetAddrText.ExpandIsWords | src/base/system.cpp:1356-1357 | whatever text expands gives eight 16-bit words |
| NetAddr.TextFits | src/base/types.h:40 | the text of every address, brackets and port included, is shorter than NETADDR_MAXSTRSIZE |
| NetAddr.NothingIsCut | src/base/types.h:40 | so in a buffer of that size nothing is cut |
| NetAddr.ParseInt | src/base/system.cpp:1232-1255 | reads all the digits there are, and fails if there are none |
| NetAddr.NineDigitsFit | src/base/system.cpp:1250 | up to nine digits the number fits an int |
| NetAddr.ParseUintAt | src/base/system.cpp:1265-1285 | the same up to a maximum |
| NetAddr.NetAddrFromStr | src/base/system.cpp:1329-1410 | accepts and returns what the specification of the text form says |
| NetAddr.ParseBracketed | src/base/system.cpp:1334-1379 | the IPv6 branch, and where reading ends |
| NetAddr.V4RoundTrip | src/base/system.cpp:1114-1120 | every IPv4 address and port parse back from their text |
| NetAddr.V6RoundTrip | src/base/system.cpp:1121-1135 | every IPv6 address and port parse back from their text |
| NetAddr.AcceptedIsValid | src/base/system.cpp:1329-1410 | whatever text is accepted, bytes and port are in range |
| NetAddr.AcceptedIsStable | src/base/system.cpp:1329-1410 | printing and parsing again what was accepted changes nothing |
| NetAddr.BracketedAccepted | src/base/system.cpp:1334-1378 | an IPv6 text is accepted if and only if the part in brackets is an address and, behind a colon, a port follows; and what it gives |
| NetAddr.AcceptedHasBracket | src/base/system.cpp:1341-1376 | no other text with an opening bracket is accepted |
| NetAddr.NumberIsDigits | src/base/system.cpp:1232-1255 | reading a number takes all the digits at the front and nothing else |
| NetAddr.ReadToEndIff | src/base/system.cpp:1361-1378 | an accepted IPv6 text is read to its end if and only if nothing follows the bracket, or a colon and nothing but digits |
| NetAddr.TrailingText | src/base/system.cpp:1361-1378 | any text not starting with a colon may follow the bracket, any not starting with a digit the port; both are left unread |
| NetAddr.TrailingInstances | src/base/system.cpp:1361-1378 | `[::]x` and `[::]:80x` are accepted |
| NetAddrForms.DottedAccepted | src/base/system.cpp:1380-1407 | an IPv4 text is accepted if and only if it is four numbers up to 255 with dots between them and, where there is more, a colon and a number up to 65535, to its end |
| NetAddrForms.TextIsOnly | src/base/system.cpp:1112-1138 | an address has only one text |
| NetAddrForms.LocalhostText | src/test/netaddr.cpp:47-51 | the text of 127.0.0.1 with and without its port |
| NetAddrForms.FullAddress | src/test/netaddr.cpp:65-69 | the text of eight words none of which is zero, from the bytes |
| NetAddrForms.ShortAddress | src/test/netaddr.cpp:81-85 | the text of 2001:db8::1 from the bytes |
| Confusables.PassLowers | scripts/generate_unicode_confusables_data.py:43-49 | a whole pass lowers the highest rank of what is left to replace |
| Confusables.RankClearsAll | scripts/generate_unicode_confusables_data.py:43-49 | with such a rank the passes leave nothing to replace of any list |
| Confusables.ClearsIffRank | scripts/generate_unicode_confusables_data.py:38-49 | they do so from every character if and only if such a rank exists |
| Confusables.RankIffChecked | scripts/generate_unicode_confusables_data.py:38-49 | that is so if and only if as many passes as there are keys leave nothing to replace of any key |
| Confusables.FixedHasNoKeys | scripts/generate_unicode_confusables_data.py:46-48 | a list that a map leaves as it is holds none of its keys, if no character is replaced by a list holding it |
| Confusables.EndsIffRank | scripts/generate_unicode_confusables_data.py:43-49 | then the loop ends from every character if and only if a rank exists |
| ConfusablesEnd.LivesOn | scripts/generate_unicode_confusables_data.py:43-49 | a character never vanishes if and only if something that never vanishes comes of it in one pass |
| ConfusablesEnd.ComesBack | scripts/generate_unicode_confusables_data.py:43-49 | if the loop ends, a character that ever comes back does so in each pass, once, and all else that comes of it vanishes |
| ConfusablesEnd.RoundsBound | scripts/generate_unicode_confusables_data.py:43-49 | if the loop ends from every character, none takes more passes than there are keys |
| ConfusablesEnd.EndsIffChecked | scripts/generate_unicode_confusables_data.py:43-49 | it ends from every character, whatever the maps, if and only if as many passes as there are keys leave every key at a stable list |
| ConfusablesEnd.GrowingNeverEnds | scripts/generate_unicode_confusables_data.py:46-48 | a character that stands for itself and another one keeps the loop running for ever |
| ConfusablesEnd.VanishingTailEnds | scripts/generate_unicode_confusables_data.py:46-48 | unless that other one vanishes |
| Confusables.RoundsStep | scripts/generate_unicode_confusables_data.py:43-49 | a pass that changes something brings the end one round closer and does not change where it is |
| Confusables.Gen | scripts/generate_unicode_confusables_data.py:41-50 | wherever the loop ends at all, it returns the converged list without ignored characters |
| Confusables.GenerateDecompositions | scripts/generate_unicode_confusables_data.py:21-52 | the amended maps give every interesting character what gen returns for it |
| Confusables.ConvergedIsFixed | scripts/generate_unicode_confusables_data.py:46-48 | the converged list is fixed by both replacement maps |
| Confusables.ConvergedIs | scripts/generate_unicode_confusables_data.py:43-49 | any number of passes that gives a stable list gives the converged one |
| Confusables.ConvergedIsClear | scripts/generate_unicode_confusables_data.py:43-49 | if some number of passes leaves nothing to replace, the loop leaves nothing |
| Confusables.ConvergedConcat | scripts/generate_unicode_confusables_data.py:38-49 | a list converges to the concatenation of what its parts converge to |
| Confusables.StringDecomposes | scripts/generate_unicode_confusables_data.py:36-52 | replacing each character by its decomposition equals rewriting the whole string until stable and dropping the ignored |
| Confusables.CycleNeverConverges | scripts/generate_unicode_confusables_data.py:43-49 | two characters that stand for each other keep the loop running for ever |
| Confusables.MaskedCycleClears | scripts/generate_unicode_confusables_data.py:43-49 | behind a map that breaks the cycle the passes still clear every list |
| Confusables.SelfReplacementEnds | scripts/generate_unicode_confusables_data.py:46-48 | a character that stands for itself ends the loop without a rank, with something left to replace |
| Confusables.DecomposedFirst | scripts/generate_unicode_confusables_data.py:43-45 | of a character with entries in both maps the decomposition is used |
| Confusables.OwnFour | scripts/generate_unicode_confusables_data.py:20-34 | l and the inverted exclamation mark converge to i, two further characters to nothing; an empty decomposition is none |
| ConfusablesTable.Offsets | scripts/generate_unicode_confusables_data.py:120-124 | each offset is the total length of the decompositions before it |
| Sequences.SliceOfFlatten | scripts/generate_unicode_confusables_data.py:104-107 | a decomposition is found at its offset |
| ConfusablesTable.GenData | scripts/generate_unicode_confusables_data.py:76-108 | the arrays written: sorted keys, slices, lengths, data |
| ConfusablesTable.Generate | scripts/generate_unicode_confusables_data.py:110-132 | sorting and deduplication included; fails exactly for more than eight different lengths |
| ConfusablesTable.ListedUnique | scripts/generate_unicode_confusables_data.py:114-115 | there is only one such listing of a table |
| Sequences.Sorted | scripts/generate_unicode_confusables_data.py:114-115 | a set in ascending order, each element once |
| ConfusablesTable.TableIsFaithful | scripts/generate_unicode_confusables_data.py:95-108 | an entry whose offset and length index fit their bits reads back its decomposition |
| ConfusablesTable.TableReadsBack | scripts/generate_unicode_confusables_data.py:95-108 | with the last offset below 2^13 every entry does |
| ConfusablesTable.OffsetsFitIff | scripts/generate_unicode_confusables_data.py:120-124 | all offsets survive packing if and only if the last one is below 2^13 |
| ConfusablesOverflow.DataDecomposes | scripts/generate_unicode_confusables_data.py:24-52 | what generate_decompositions returns for 34 long confusables and its own four |
| ConfusablesOverflow.LargeTableIsUnfaithful | scripts/generate_unicode_confusables_data.py:114-124 | the script lists and accepts that table, and its last decomposition, at offset 8251, reads back wrongly |
| ConfusablesTable.Skeleton | src/base/unicode/confusables.cpp:7-29 | finds the character's slice exactly if the character is in the table |
| ConfusablesCompare.Walker.constructor | src/base/unicode/confusables.cpp:38-43 | the walk starts with the whole skeleton ahead |
| ConfusablesCompare.Walker.Next | src/base/unicode/confusables.cpp:45-64 | returns the next character of the skeleton, 0 exactly at its end or at a 0 in it |
| ConfusablesCompare.ToSkeleton | src/base/unicode/confusables.cpp:66-81 | writes as much of the skeleton as fits and nothing else |
| ConfusablesCompare.CompConfusable | src/base/unicode/confusables.cpp:83-102 | 0 exactly if the two strings have the same skeleton, up to a 0 if there is one |
| ConfusablesCompare.EntryIsDecomposition | src/base/unicode/confusables.cpp:14-19 | what the packed tables say about a character is its decomposition |
| ConfusablesCompare.SkeletonIsApply | src/base/unicode/confusables.cpp:66-81 | the skeleton is the plain map applied to the characters |
| ConfusablesCompare.ConfusableMeans | src/base/unicode/confusables.cpp:83-102 | two strings compare as confusable exactly if rewriting each until stable, less the ignored characters, gives the same; U+0000 being ignored, no skeleton holds a 0 |
| FutureLogger.LockPreserved | src/base/log.cpp:447-481 | mutual exclusion, and a call about to append has seen no logger while none is set |
| FutureLogger.TallyStep | src/base/log.cpp:457-480 | only handing over adds a message to those delivered or waiting; flushing moves it |
| FutureLogger.RunInv | src/base/log.cpp:447-481 | the invariant holds in every state of every interleaving |
| FutureLogger.DeliveredExactlyOnce | src/base/log.cpp:447-481 | once Set and all calls have returned the target has got every message exactly once |
| FutureLogger.NeverTwice | src/base/log.cpp:447-481 | at no time twice, and never before its call has handed it over |
| FutureLogger.NothingPending | src/base/log.cpp:457-462 | nothing is pending once the logger is set, except while Set holds the lock |
| FutureLogger.PendingInOrder | src/base/log.cpp:457-460 | the messages that had to wait arrive in order |
| TilemapSkip.SkipRow | src/game/layers.cpp:198-209 | each stop's skip is the number of empty tiles after it, up to 254; columns that are no stops keep theirs, and nothing else changes |
| TilemapSkip.InitTilemapSkip | src/game/layers.cpp:192-211 | the same for every row, indices and flags unchanged |
| TilemapSkip.WalkFindsTiles | src/game/layers.cpp:198-209 | walking by x + 1 + skip visits every non-empty tile |
| TilemapSkip.EmptyStops | src/game/layers.cpp:198-209 | and stops at an empty tile only after 254 empty ones |
| Color.HslRange | src/base/color.h:208-220 | hue in [0, 1), saturation and lightness in [0, 1] |
| Color.RgbRoundTrip | src/base/color.h:17-262 | RGB to HSL and back is the identity on all of [0, 1]^3 |
| Color.HslRoundTrip | src/base/color.h:17-262 | HSL to RGB and back is the identity for every colour with a saturation that is neither black nor white |
| Color.Red | src/base/color.h:17-35 | the wheel begins with red |
| Color.Yellow | src/base/color.h:17-35 | a sixth further lies yellow |
| Color.ThirdTurn | src/base/color.h:17-35 | moving the components on by one place goes a third round the wheel and changes neither saturation nor lightness |

## Left out

- Sockets, files, processes, time and windows code: foreign calls. A file write appends the whole block; I/O errors
  and the error field of the output object are not modelled. Allocation always succeeds.
- Real threads and memory orderings: lock, unlock, semaphore, atomic and file operations are atomic steps. The
  output object is waited for once, and freed when no other call on it is in progress.
- AsyncIo.Ring.WriteUnlocked: asks for what is exactly the condition of success, at most 2^31 bytes needed
  (`AsyncIo.GrowthOutcome`); so do the writes of `AsyncIoRefinement`, while those of `AsyncIoProtocol` have no limit.
- HuffmanCodec.CHuffman.Compress: what it promises is for codes of at most 24 bits, which is what the accumulators of
  32 bits are sure to hold; for longer ones only that it stays within the output. The one code of the game is such a code
  (`NetBase.TableIsShallow`), so `NetBase.CNetBase.Compress` promises it without a condition.
- HuffmanCodec.CHuffman.Decompress: the same; and the test for a missing table entry is left out, since all are there.
- HuffmanTable.BuildTree: a sum of frequencies beyond the range of an int, which is undefined in the original, wraps around.
- NetBase.CNetBase.SendData: headers, tokens and flags of the packets are not modelled. `NetBase.CNetBase.ReceiveData`
  asks that uncompressed data fit the packet's 1394 bytes of data, as `NetBase.CNetBase.SendAndReceive` does of what is sent.
- Prng.CPrng.RandomBits: 64-bit and 32-bit words are numbers with the wrap-around written out; the description
  text of the generator is not modelled.
- Utf8Strings.StrUtf8FixTruncation: what it leaves of an already invalid string is stated, but no quality claimed for it.
- Sha256Stream.Context.Update: chunks of 2^32 bytes and more are cut to their length modulo 2^32, as in the original.
- MoveBox.LengthsBounded: like `MoveBox.SpeedsNeverGrow` over the reals, with the length of the velocity given; rounding can exceed these bounds by
  its error. `MoveBox.NeverInSolid` holds for any rounding function. The map has tiles.
- Color.RgbRoundTrip: over the reals, without the alpha channel, which is copied. The HSV conversions are left out.
- PixelArtInsert.InsertPixelArtQuads: the pixel size divides both dimensions of the image, the perfect grid that the
  usage text of the tool asks for; elsewhere the marking would leave the rows of the mask. Positions and vertices of
  the quads in floating point, the pivot and the automatic detection of the pixel size are left out; a quad is its
  rectangle of cells and its color.
- Hook.RunKeeps: starts from reset characters on a fixed roster; a Reset in the middle of a run clears
  the attached set without telling the others. Geometry, team and tuning decisions are arbitrary inputs of each Tick;
  movement, jumping, weapons and the rest of the character are left out.
- NetAddr.ParseInt: numbers of more than nine digits may overflow the int of the original, which is undefined there; the
  model reads them as they are (`NetAddr.NineDigitsFit` for the others). The same goes for `NetAddr.ParseUintAt` and
  `NetAddr.NetAddrFromStr`, where `inet_pton` is taken as the text forms of RFC 4291 section 2.2.
- Confusables.Gen: Unicode data are parameters, as maps and a set of characters to ignore.
- ConfusablesTable.GenData: the tables are values, not the text of a C++ file. That a length fits the eight bits of its
  table entry is left to the C++ compiler, which rejects the initializer otherwise.
- FutureLogger.PendingInOrder: a message logged directly can overtake the waiting ones, so no order between the two
  kinds is claimed. Set is called once.
- TilemapSkip.InitTilemapSkip: one layer; layers that share their data with different widths overwrite each other's skips.
- Snapshots and their deltas (`src/engine/shared/snapshot.cpp`), the variable-length integers beside them,
  `secure_rand_below`, `str_utf8_stats`, path and case-folding string functions, the other collision queries, the engine
  interfaces and the map tools are not modelled.
