# Verified model of the DDNet protocol library

This project models the C library that reads and writes the DDNet 0.6 network protocol, and proves properties of the
model with Dafny. `dafny verify dfyconfig.toml` checks all of it.

The model has three connected parts.

**The Huffman codec** (`src/huffman.c`). `StableSort` has the bubble sort, `HuffmanTree` the merging of the two
lightest entries as a function, `HuffmanNodes` the class `Codec` with the node array, the recursive assignment of
codes and the 1024-entry lookup table. `PrefixCodes`, `HuffmanOptimal` and `HuffmanHeight` hold the theory: the Kraft
inequality, optimality by an exchange argument, and the Fibonacci bound on the height; `HuffmanShape` shows that every
node of the array belongs to the tree once. `FrequencyTable` shows that the library's table meets the hypotheses, and
`EndOfStreamCode` and `LibraryTable` find enough of the end symbol's code to show that no cut-off input is accepted.
`HuffmanCompress` and `HuffmanDecompress` are the two loops over 32-bit accumulators; `HuffmanDecode` has the
bit-by-bit reference decoder, the specification of the fast decoder with its wrapping bit counter, and the round trip.

**Packing and framing** (`src/packer.c`, `src/message.c`, `src/chunk.c`, `src/fetch_chunks.c`, `src/packet.c`).
`Varint` has the variable-length integers as functions, `Strings` the in-place string clean-ups, `Packer` and
`Unpacker` the two stateful objects. `Fields` lifts them to arbitrary field lists, `Messages` to 26 message kinds with
the calls of the encoder and of the decoder side by side, `Chunks` to chunk headers and the framing loop, `Packets` to
whole packets, compressed or not. `Reencode` says which packets arrive exactly as they were sent, and which decoded
packets survive being encoded again. `IntString` and `Snapshot` use the same reader for strings inside integers and
for snapshot items; `SnapshotFormat` writes the bytes of snapshots down on their own and shows what is read from them.

**Reliability** (`src/session.c`, `ddproto_build_packet`, the receiving step of `examples/client.c`). `Session` has
the 16-bit counter and the building of packets, `Client` the window test and the steps of the receiver, and
`Reliability` a transition system with unbounded indices and a network that loses, repeats and reorders.

Conventions. Machine words are natural numbers with the wrap-around written out; bytes are numbers below 256. C
objects are classes, C buffers are arrays that are changed in place, and every such method is proved against a
function of the old state. A function that depends on a large case distinction (which messages or items there are) is
passed to the proofs about lists as a parameter, so that they hold whatever the cases are.

What the code does where its documentation leaves it open: `ddproto_encode_packet` ignores the error for an
acknowledged sequence of 1024 or more and then leaves the three header bytes unwritten; a message that does not fit in
the packer leaves a chunk header without a body; `ddproto_get_int` on a cut-off number stays on the last byte; a
snapshot item with a negative size is accepted with no data; a chunk whose message has a number in more bytes than
necessary, or bytes behind its last field, is accepted, but keeps its size and so misframes the packet when it is
encoded again; a chunk behind a gap asks for a resend and is still passed on to its handler.

## Model

| member | source | states |
|---|---|---|
| StableSort.StableDescendingUnique | src/huffman.c:107-108 | a stable descending arrangement of a list is unique, so the tree depends on the frequency table alone |
| StableSort.SortedIsStable | src/huffman.c:54-70 | the specification of the sort is a descending arrangement that keeps entries of equal frequency in order |
| StableSort.StableDescendingIsSorted | src/huffman.c:54-70 | any descending arrangement that keeps equal entries in order is the specified one |
| StableSort.BubblePass | src/huffman.c:59-68 | one pass keeps the stable arrangement, puts the next entry in place, and changes nothing only when the list is sorted |
| StableSort.BubbleSort | src/huffman.c:54-70 | the early-exit sort with shrinking range terminates in exactly the stable descending arrangement |
| HuffmanTree.MergeKeepsForest | src/huffman.c:110-117 | a merge keeps the symbols and the total frequency of the list and adds the merged frequency to the cost |
| HuffmanTree.MergeKeepsDistinct | src/huffman.c:106-118 | a merge keeps the leaves of the list distinct, so with the row above they partition the symbols at every round |
| HuffmanTree.BuildKeepsForest | src/huffman.c:106-118 | the finished tree has exactly the symbols, leaves and total frequency of the list it was built from |
| HuffmanTree.TreeOfLeaves | src/huffman.c:86-120 | the leaves of the tree are the symbols of the table, each once, with their table frequencies |
| PrefixCodes.PrefixFreeKraft | src/huffman.c:72-84 | every prefix-free code satisfies the Kraft inequality |
| HuffmanOptimal.BuildOptimal | src/huffman.c:106-118 | no lengths that satisfy the Kraft inequality cost less than the tree that the merge loop builds from a list |
| HuffmanOptimal.HuffmanCost | src/huffman.c:115-115 | frequency times code length, summed over the symbols, is the sum of the merged frequencies |
| HuffmanOptimal.HuffmanIsOptimal | src/huffman.c:86-124 | no prefix code for the same symbols needs fewer bits for the frequencies of the table |
| HuffmanOptimal.HuffmanCodesComplete | src/huffman.c:72-123 | the codes are prefix-free and fulfil the Kraft inequality with equality |
| HuffmanHeight.MergeKeepsBalanced | src/huffman.c:106-118 | children of a built node weigh no more than any entry still in the list, and node frequencies keep the Fibonacci bound |
| HuffmanHeight.BuildHeavy | src/huffman.c:106-118 | a node of height h that the merge loop built has at least frequency Fib(h + 2) |
| HuffmanHeight.DominatorMergedLast | src/huffman.c:106-118 | an entry heavier than all others together is merged last and becomes a child of the root |
| HuffmanHeight.CodesAreShort | src/huffman.c:5-18 | with such a table every code has at most 22 bits, and symbol 0 has the code 1 |
| FrequencyTable.TableIsShort | src/huffman.c:5-18 | the library's table has 257 positive entries, the first heavier than all others together, which sum to 44895 |
| HuffmanNodes.TableTree | src/huffman.c:106-120 | the root of the tree of a valid table is node 512 of 513, and its leaves are the 257 symbols, each once |
| HuffmanShape.FullBinaryTree | src/huffman.c:86-120 | the tree of a table of n entries has the leaves 0 to n - 1 and the inner nodes n to 2n - 2, each exactly once, so all 513 array nodes belong to it |
| HuffmanNodes.LabelledCode | src/huffman.c:72-84 | the bits and length stored with a symbol are its root path, first bit lowest |
| HuffmanNodes.LutEntryIsPrefix | src/huffman.c:144-161 | an entry of the lookup table is the one leaf whose code is a prefix of its ten bits, or an inner node if there is none; it is never null |
| HuffmanNodes.Codec.SetBits | src/huffman.c:72-84 | the recursion stores with every leaf below a node the path to it and changes nothing else |
| HuffmanNodes.Codec.AddSymbols | src/huffman.c:91-103 | the working list starts with one entry for every symbol and its frequency |
| HuffmanNodes.Codec.MergeRound | src/huffman.c:106-118 | one round makes the list that of the merged forest, with children below their parents in the node array |
| HuffmanNodes.Codec.ConstructTree | src/huffman.c:86-124 | the node array holds the tree of the frequency table with its codes |
| HuffmanNodes.Codec.LutEntry | src/huffman.c:145-160 | the walk for one table entry ends at the node that its ten bits lead to |
| HuffmanNodes.Codec.BuildLut | src/huffman.c:143-161 | all 1024 entries are the nodes that their bits lead to |
| HuffmanNodes.Codec.Init | src/huffman.c:126-162 | the tables are those of the frequency table, and later calls leave them alone |
| HuffmanCompress.PacksUnique | src/huffman.c:214-228 | the bytes that hold a bit stream with zero padding are determined by it |
| HuffmanCompress.LoadSymbol | src/huffman.c:166-169 | a code is appended to the pending bits and no bit is lost |
| HuffmanCompress.WriteBytes | src/huffman.c:171-181 | whole bytes move from the accumulator to the output; the buffer is full exactly when the stream is a whole byte longer than it |
| HuffmanCompress.Compress | src/huffman.c:164-228 | the output is the concatenated codes with the end symbol in the least number of bytes, zero padded; BUFFER_FULL exactly when that number exceeds the output |
| HuffmanDecode.FastRefinesWalk | src/huffman.c:249-325 | whenever decompression succeeds its output is that of a bit-by-bit walk on the input extended with zeros |
| HuffmanDecode.CompleteStreamDecodes | src/huffman.c:249-325 | a stream whose end symbol lies within the input is always decompressed |
| HuffmanDecode.SuccessExactly | src/huffman.c:235-329 | for every valid table: decompression succeeds on exactly the inputs that contain the end symbol, if and only if no code beyond ten bits can fake the end after the counter wraps |
| HuffmanDecode.CutOffInput | src/huffman.c:283-310 | a symbol that breaks this condition gives an input of two bytes that is accepted although its end symbol is cut off |
| HuffmanDecode.SuccessFromAnyState | src/huffman.c:249-325 | the same equivalence for the decoder started with any stream, count of bits and room |
| HuffmanDecode.CutOffStreamAccepted | src/huffman.c:298-310 | with exactly ten bits left, such a symbol wraps the counter and is accepted although it is cut off |
| EndOfStreamCode.Climb | src/huffman.c:106-118 | an entry ends up at least k + 2 levels deep when there are k entries that each outweigh it and the ones before together, all below the heaviest |
| EndOfStreamCode.EofCode | src/huffman.c:5-18 | in the tree of the library's table the code of the end symbol has at least 13 bits and ends in 100 |
| LibraryTable.TableHasNoFalseEnd | src/huffman.c:5-18 | the library's table meets the condition |
| LibraryTable.LibraryAcceptsComplete | src/huffman.c:235-329 | with the library's table, decompression succeeds on exactly the inputs that contain the end symbol, given the room |
| HuffmanDecode.WalkCodeStream | src/huffman.c:293-311 | the reference walk on the code stream of x, whatever follows it, gives x and uses exactly the stream |
| HuffmanDecode.RoundTrip | src/huffman.c:164-329 | decompressing compressed x gives x, also with any bytes behind it; BUFFER_FULL exactly when the output is shorter than x |
| HuffmanDecode.CutOffInputError | src/huffman.c:272-311 | an input that ends within a code fails with the error that the length of that code and the bits left give, whatever was decoded before; ten bits left is the case of the counter wrap |
| HuffmanDecode.DecodeBehind | src/huffman.c:249-325 | behind the whole codes of x the decoder goes on with what is left of input, bits and room |
| HuffmanDecompress.TableLookup | src/huffman.c:252-265 | the entry for the low ten bits is the leaf of the walk, or the inner node ten steps on its way |
| HuffmanDecompress.Refill | src/huffman.c:256-260 | refilling keeps the accumulator equal to the next bits of the stream and brings it to 24 bits unless the input ends |
| HuffmanDecompress.WalkTail | src/huffman.c:292-311 | the walk below the table ends at the leaf of the stream with END_OF_BUFFER exactly when the bits run out, also when the counter wraps |
| HuffmanDecompress.TakeSymbol | src/huffman.c:272-312 | one symbol: the leaf of the bit-by-bit walk, or the error that the count of bits gives |
| HuffmanDecompress.Decompress | src/huffman.c:235-329 | the loop terminates on every input with the specified bytes or error, and never with HUFFMAN_NODE_NULL |
| Varint.VarintRoundTrip | src/packer.c:237-360 | every 32-bit integer is read back from its encoding, with the number of bytes written, at most five |
| Varint.EncodingIsShortest | src/packer.c:237-273 | no byte sequence that is read as a number is shorter than the encoding of that number |
| Varint.EncodingsAreDistinct | src/packer.c:237-273 | no encoding is a prefix of another number's encoding |
| Strings.Sanitize | src/packer.c:18-26 | control characters other than tab, newline and carriage return become spaces (32), in place, and all others stay |
| Strings.SanitizeCc | src/packer.c:8-16 | all control characters become spaces, in place |
| Strings.CopyCharacter | src/packer.c:28-55 | one character moves down behind at most one space; the write position stays at or below the read position |
| Strings.CleanWhitespaces | src/packer.c:28-55 | the in-place loop leaves the words of the string joined by single spaces and touches nothing outside it |
| Strings.CleanedLength | src/packer.c:28-55 | the cleaned string is never longer, and shorter when the string ends in a space |
| Strings.WordsConcat | src/packer.c:28-55 | the words of two strings with a space between them are the words of both |
| Strings.CleanedIsTidy | src/packer.c:28-55 | the result has no space at its ends and no two in a row |
| Strings.CleanedIdempotent | src/packer.c:28-55 | cleaning keeps the words and a second cleaning changes nothing |
| Strings.CleanedCommutesWithSanitized | src/packer.c:8-55 | cleaning before sanitising makes no difference when the result is cleaned again |
| Packer.Packer.AddInt | src/packer.c:237-273 | the encoding is appended, or the sticky error is set because it does not fit |
| Packer.Packer.AddString | src/packer.c:275-284 | the string and its NUL are appended, or the sticky error is set because they do not fit |
| Packer.Packer.AddRaw | src/packer.c:286-293 | the bytes are appended, or the sticky error is set because they do not fit |
| Unpacker.NumberEnds | src/packer.c:305-360 | the unrolled reader computes the general six-then-seven-bit loop cut to 31 bits |
| Unpacker.NumberCut | src/packer.c:305-360 | fewer than five bytes that all say another one follows are a cut-off number |
| Unpacker.NumberWeights | src/packer.c:305-360 | the number that bytes stand for, by the weights 1, 64, 8192, 2^20 and 2^27 of their groups and the sign bit |
| Unpacker.IntErrors | src/packer.c:305-360 | EMPTY_BUFFER on an empty buffer, END_OF_BUFFER on the last byte when fewer than five bytes all continue, and no new error otherwise |
| Unpacker.StringOrError | src/packer.c:362-387 | the string up to the first NUL with the clean-ups, or STR_UNEXPECTED_EOF with nothing left when there is none |
| Unpacker.CleanupModes | src/packer.c:378-385 | what each combination of clean-ups does; the default sanitises |
| Unpacker.Unpacker.GetInt | src/packer.c:305-360 | the number at the cursor and the new cursor are those of the general reader, errors included |
| Unpacker.Unpacker.GetBool | src/packer.c:393-399 | an integer that must be 0 or 1, otherwise INVALID_BOOL |
| Unpacker.Unpacker.GetRaw | src/packer.c:401-412 | exactly the requested bytes, or END_OF_BUFFER with the cursor unmoved |
| Unpacker.Unpacker.GetString | src/packer.c:362-387 | the string up to its NUL after the requested clean-ups, which change nothing outside the bytes read |
| Fields.FieldsRoundTrip | src/packer.c:237-412 | any list of fields is read back in order from its bytes, strings sanitised, with no error and nothing behind them touched |
| Fields.ReadFieldsKeepError | src/packer.c:305-412 | an error of the unpacker is never lost by further reads |
| Fields.AddFields | src/packer.c:237-293 | any list of fields is packed without an error exactly when its bytes fit; an error stays |
| Fields.GetFields | src/packer.c:305-412 | reading field by field, with the strings cleaned in the buffer, gives the specified values and cursor |
| Messages.TagIdentifiesKind | src/packer.c:63-223 | the number written for a message kind is decoded as that kind |
| Messages.CallsMirror | src/message.c:12-452 | for every message, the unpacker calls of its decoder case read what the packer calls of its encoder branch wrote, into the same fields |
| Messages.CallsMirrorBack | src/message.c:12-452 | for every kind, the fields that the decoder fills are packed again in the same order |
| Messages.WireFormat | src/message.c:259-453 | the bytes of every message, kind by kind: the number in front, and the named fields as integers and NUL-terminated strings in this order |
| Messages.WireRead | src/message.c:12-257 | these bytes are read as that message, each string sanitised |
| Messages.ChatOnWire | src/message.c:21-26 | a chat message is 6, team, client id and text, and is read as these |
| Messages.UnknownIds | src/message.c:12-252 | the numbers that are not known: exactly for them the payload is kept as raw bytes with UNKNOWN_MESSAGE |
| Messages.MessageRoundTrip | src/message.c:236-453 | an encoded message is decoded as the same message with its strings sanitised; a raw one as unknown with the same bytes |
| Messages.EncodeMessage | src/message.c:259-453 | the message bytes are written at the place given, or BUFFER_FULL and nothing exactly when a packed message exceeds 2048 bytes |
| Messages.ReadMessage | src/message.c:236-257 | decoding in place gives the specified message and error and changes only the payload |
| Chunks.SequenceOnWire | src/chunk.c:12-29 | the two overlapping parts of a sequence are or-ed to its low ten bits |
| Chunks.ChunkHeaderOnWire | src/chunk.c:7-32 | what arrives of a header: upper two flags, ten bits of size, ten bits of sequence if it is vital |
| Chunks.ChunkHeaderRoundTrip | src/chunk.c:7-32 | a header comes back unchanged if and only if it has no lower flags, a size below 1024, and a sequence in range |
| Chunks.ChunkHeaderFormat | src/chunk.c:21-32 | the two or three bytes of a header, by the bits of flags, size and sequence |
| Chunks.FetchFromBytes | src/fetch_chunks.c:17-59 | one round from the bytes: END_OF_BUFFER for fewer than four bytes or a size beyond the end, otherwise the chunk or the error of its message, an unknown id not being one |
| Chunks.FetchTiles | src/fetch_chunks.c:7-70 | on success there are exactly num_chunks chunks in order, tiling a prefix of the payload whose length is the result |
| Chunks.FetchChunk | src/fetch_chunks.c:17-59 | one round: a chunk with its header, or the error, and nothing changed outside the chunk |
| Chunks.FetchChunks | src/fetch_chunks.c:7-70 | the loop gives the specified chunks and length or error; what was not fetched is as it was received |
| Chunks.FillChunkHeader | src/chunk.c:34-52 | size and flags of a message that can be encoded, 0 for player input and the vital flag 64 for all others, and an unchanged header otherwise |
| Packets.HeaderRoundTrip | src/packet.c:12-28 | six flags, ten bits of acknowledgement and the chunk count survive |
| Packets.TokenRoundTrip | src/token.c:6-15 | the token is read back from its four bytes, the most significant first |
| Packets.HeaderBits | src/packet.c:12-28 | the bits of the three bytes that are flags, acknowledgement, chunk count, control and compression |
| Packets.ReceivedOutcome | src/packet.c:51-122 | from the received bytes: INVALID_PACKET below 3 and above 1400 bytes, decompression exactly when the first byte is 128 or more, a control packet by its bit 4, otherwise the chunks |
| Packets.AcceptedIsTiled | src/packet.c:77-122 | an accepted payload consists of its chunks and the token, with nothing between or behind them |
| Packets.PayloadTail | src/packet.c:77-122 | whatever stands behind framed chunks: more than four bytes remain, exactly four are the token, and fewer lack it, unless fewer than four are left for the last chunk |
| Packets.TokenErrors | src/packet.c:102-118 | bytes behind the token give REMAINING_BYTES_IN_BUFFER, a token cut off gives MISSING_DDNET_SECURITY_TOKEN, or END_OF_BUFFER where the last chunk is too short |
| Packets.PayloadRoundTrip | src/packet.c:77-145 | the payload of any list of framed chunks decodes to that list and the token |
| Packets.PacketRoundTrip | src/packet.c:51-158 | a normal packet decodes to the same header and token, and to its chunks and messages as they are received |
| Packets.DecodeCompressed | src/packet.c:41-69 | a compressed payload decodes like the plain one, or BUFFER_FULL exactly when it is longer than 1400 bytes |
| Packets.CompressedPacketRoundTrip | src/packet.c:41-126 | a packet whose payload was compressed arrives with the same header and token, and its chunks and messages as they are received |
| Packets.WriteHeader | src/packet.c:20-28 | the header bytes, or ACK_OUT_OF_BOUNDS with nothing written |
| Packets.EncodePacket | src/packet.c:128-158 | header, chunks and token in the buffer, the error of any message that does not fit, and a header left out when the acknowledgement is out of bounds |
| Packets.GetPayload | src/packet.c:41-49 | the payload decompressed when bit 5 of the flags is set, and as received otherwise |
| Packets.DecodePacket | src/packet.c:51-126 | the outcome specified for every input: the packet, or the error of its length, payload, chunks or token |
| Packets.ReceivePacket | src/packet.c:51-126 | the same with the message decoder fixed to that of the library |
| Reencode.PacketUnchanged | src/packet.c:51-158 | a normal packet decodes to itself if and only if its strings hold no control characters but tab, newline and carriage return, and its chunk headers say nothing the wire has no room for |
| Reencode.PayloadReencoded | src/packet.c:77-145 | a decoded payload never gets longer when it is encoded, and decodes to the same packet again if and only if every chunk header still gives the size of its message |
| Reencode.PacketReencoded | src/packet.c:51-158 | the same for every packet that is accepted uncompressed |
| Reencode.PaddedChunk | src/fetch_chunks.c:17-59 | one byte behind a READY message is accepted, and the packet does not survive encoding and decoding again |
| Session.CounterCounts | src/packet.c:173-176 | the counter is the number of vital chunks built, wrapped to 16 bits |
| Session.VitalChunksAreNumbered | src/packet.c:168-176 | the k-th vital chunk ever built carries k modulo 1024 on the wire, also beyond the wrap of the counter |
| Session.BuiltAreVital | src/chunk.c:34-52 | every message but player input is built as a vital chunk |
| Session.BuildPacket | src/packet.c:160-182 | a chunk for every message, as many vital ones as messages other than player input, which carry the numbers behind the counter on the wire, and the counter moved by as many; or BUFFER_FULL at the first message that cannot be encoded, with the chunks before it built and those behind it untouched |
| Session.BuiltPacketArrives | src/packet.c:51-182 | a packet that was built is decoded with the same messages in the same order |
| Session.Session.constructor | examples/client.c:76-82 | the initial session |
| Client.BackroomIsHalfWindow | src/session.c:5-18 | on ten-bit numbers the test says that the sequence is at most 512 behind, modulo 1024 |
| Client.ReceiveOnNumbers | examples/client.c:249-262 | on ten-bit numbers: only a vital chunk at most 512 behind is dropped, the next one is accepted, and any other asks for a resend |
| Client.Client.OnChunk | examples/client.c:249-262 | in sequence: accept; known: drop; otherwise ask for a resend and pass on; a chunk that is not vital is always passed on and changes nothing |
| Client.Client.SendPacket | examples/client.c:89-101 | the resend flag is set exactly when one is pending, the request is forgotten, and the packet is encoded, and sent unless that fails |
| Reliability.ClassifiedRightIff | src/session.c:5-18 | for all indices, the receiver judges a chunk rightly if and only if the distance modulo 1024 is in the right half for it |
| Reliability.WindowIsRight | src/session.c:5-18 | inside the window of 512 behind and 511 ahead the judgement is right; on either side the next index is judged wrongly |
| Reliability.FarAheadIsMistaken | examples/client.c:251-253 | a chunk 1024 ahead of the expected one is taken for it |
| Reliability.AlwaysGood | examples/client.c:249-261 | on every run the accepted indices are 1, 2, 3, ... and the acknowledgement is their number modulo 1024 |
| Reliability.WholeRun | examples/client.c:249-261 | at every arrival of a run whose distances are in the right half: accepted exactly when next, dropped and not dispatched exactly when accepted before, resend asked for exactly on a gap |
| Reliability.WholeRunExactly | examples/client.c:249-261 | for every run: each arrival is handled by its true index if and only if each arrives at such a distance |
| Reliability.WindowedRun | src/session.c:5-18 | a run in which every chunk arrives inside the window, however long it is, is such a run |
| Reliability.OthersPassThrough | examples/client.c:249-266 | every chunk that is not vital is passed on and leaves the state as it is |
| Reliability.OnlyKnownDropped | examples/client.c:249-266 | across a whole run exactly the vital chunks that were taken before are dropped |
| Reliability.ResendIffGap | examples/client.c:89-94 | a resend is pending exactly when there was a gap since the last packet was sent |
| Reliability.AcceptedArePrefix | src/packet.c:168-176 | the chunks taken in sequence are a prefix of the vital chunks built: none lost, repeated or reordered |
| IntString.IntStringRoundTrip | src/int_string.c:13-56 | the string comes back with zeros behind it, and completely if and only if it is shorter than the space; otherwise only its last character is lost |
| IntString.FourCharacters | src/int_string.c:40-53 | an integer is four characters shifted by 128, the first with weight 2^24 |
| IntString.StrLength | src/int_string.c:5-11 | the number of characters before the NUL |
| IntString.StrToInts | src/int_string.c:34-56 | four shifted characters an integer, the last byte cleared; OUTPUT_VAR_TOO_SMALL exactly when the string is longer than the space |
| IntString.IntsToStr | src/int_string.c:13-32 | the shifted characters with a NUL in the last place; OUTPUT_VAR_TOO_SMALL exactly when they do not fit |
| Snapshot.RereadInts | src/packer.c:305-360 | integers read without an error can be read again from a copy of exactly their bytes |
| Snapshot.UnknownItemRereads | src/snapshot.c:177-192 | the data kept by the default branch unpacks to exactly as many integers as its size says, with no error and nothing left |
| Snapshot.ItemRereads | src/snapshot.c:18-200 | so it is for every item that is decoded as unknown, from any cursor |
| Snapshot.SnapshotRereads | src/snapshot.c:211-253 | and for every unknown item of a decoded snapshot |
| Snapshot.ItemForward | src/snapshot.c:18-200 | reading any item moves the cursor forward, and an unknown item's data ends at the new cursor |
| Snapshot.UnknownSlicesDisjoint | src/snapshot.c:211-253 | across a snapshot the cursor only moves forward and the data of unknown items are disjoint slices in order |
| Snapshot.SnapshotIsHonest | src/snapshot.c:18-253 | a decoded snapshot leaves no error behind, and a failure reports the error that is set or a rejected type |
| Snapshot.StopsAtFirstError | src/snapshot.c:7-16 | integers read until an error are those up to the first that sets it, or all |
| Snapshot.StringEndsItem | src/snapshot.c:113-128 | an error in a string of an item ends the item there with this error |
| SnapshotFormat.ItemRoundTrip | src/snapshot.c:18-200 | every item is read from its bytes, whatever follows: type, id, and for each type the number of integers, truth values and strings that it has |
| SnapshotFormat.RejectedTypes | src/snapshot.c:163-175 | the types from 1 to 2999 that have no fields of their own are rejected |
| SnapshotFormat.SnapshotRoundTrip | src/snapshot.c:211-253 | the bytes of any keys and items, with the key count first, are read as exactly these keys and items, and what follows is left over |
| Snapshot.UnpackIntArrayAsStr | src/snapshot.c:7-16 | the string of the integers read, the error of the first integer that fails, or OUTPUT_VAR_TOO_SMALL |
| Snapshot.DecodeUnknown | src/snapshot.c:177-199 | the default branch skips the integers and keeps their bytes |
| Snapshot.DecodeItem | src/snapshot.c:18-200 | the item at the cursor, with the error and the cursor specified |
| Snapshot.DecodeSnapshot | src/snapshot.c:211-253 | removed keys and items in order, up to the first error |
| Snapshot.ReadSnapshot | src/snapshot.c:211-253 | the same with the item reader fixed to that of the library |

## Left out

- CodesAreShort: the bound of 22 bits is what follows from the sums; it is not the length of the longest code of the library's own table.
- Codec.constructor: the table is a parameter with the hypotheses of `ShortTable`; `TableIsShort` shows that the library's table has them.
- DecodePacket: a control packet is reported as such and not decoded, and a payload with a message kind that is left out, or with a string that is looked for behind the end of its payload, is excluded by the precondition.
- EncodePacket: the precondition asks for room in the buffer, because the code writes without looking at the length behind the header; control packets and connection-less packets are not modelled.
- SendPacket: only normal packets, and the packet must fit in the send buffer.
- FetchChunks: on an error the chunks handed to the callback before it are not specified; the comparison of the counts behind the loop cannot fail and is not written out.
- BuildPacket: a message that the packer takes is required to fit in the 1400 bytes that it is copied into.
- ReadMessage: a payload of a message kind that is left out, or with a string that is looked for behind its end, is excluded by the precondition; so it is for `FetchChunk`, `FetchChunks` and `ReceivePacket`.
- DecodeSnapshot: negative counts of keys or items, which the code takes for huge numbers, are marked as not covered.
- GetString: there must be a byte left or an error set, because the code looks at one byte before it compares with the end.
- StrToInts: there must be at least one integer, because the code clears the last byte without looking; a `char` is assumed to be a signed byte.
- IntsToStr: there must be at least one integer, because the NUL is written in front of the end.
- Message kinds that are not written and read with the same fields: tune parameters, map data, vote option lists, ENTERGAME, CL_SAY, snapshots and pings.
- Reading snapshots as messages: `DecodeSnapshot` works on an unpacker of its own.
- The fields of a known snapshot item are a list of values in their order on the wire; their names are not modelled.
- Strings in decoded messages are values; that they live inside the packet's payload, and how unions share memory, is not captured.
- Dispatch exactly once: not true of the code, because a chunk behind a gap is passed on before it is accepted.
- Retransmission by the sender: the repository has none; the network of the model offers old chunks again.
- Sockets, printing, signals, the message handlers and the freeing of memory.
